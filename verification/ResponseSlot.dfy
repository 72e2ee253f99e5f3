/** The single response slot of occupancy-sensor-ld2410s/ld2410s_uart/session.c: what the reader
  * thread deposits and what a waiting caller gets out of it. The order in which the two threads
  * reach the slot is Wire's subject; each method here is one critical section.
  */
module ResponseSlot {
  import opened Basics

  /** A response as the transport hands it over. */
  datatype Response = Response(word: nat, status: nat, data: seq<byte>)

  /** The slot's contents: what a consumer may still take. */
  datatype Held = Nothing | Holding(word: nat, status: nat, data: seq<byte>)

  function Kept(data: seq<byte>): (r: seq<byte>)
    ensures r <= data && |r| == Min(|data|, MAX_DATA)
  {
    if |data| < MAX_DATA then data else data[..MAX_DATA]
  }

  function Deposited(r: Response): Held { Holding(r.word, r.status, Kept(r.data)) }

  /** What send_and_wait returns for a consumed response: the bytes copied to out_buf, *out_len, and 0
    * or -1. `matched` is whether the response was the expected one, which is only logged. */
  datatype Taken = Taken(copied: seq<byte>, reportedLen: nat, ret: int, matched: bool)

  function Take(h: Held, cmd: nat, cap: nat): Taken
    requires h.Holding?
  {
    Taken(h.data[..if |h.data| < cap then |h.data| else cap], |h.data|,
          if h.status == 0 then 0 else -1, h.word == (cmd + RESP_OFFSET) % 0x1_0000)
  }

  class Slot {
    var respCmd: nat
    const respData: array<byte>
    var respLen: nat
    var respStatus: nat
    var respPending: bool

    ghost predicate Valid()
      reads this
    {
      respData.Length == MAX_DATA && respLen <= MAX_DATA
    }

    ghost function Abs(): Held
      requires Valid()
      reads this, respData
    {
      if respPending then Holding(respCmd, respStatus, respData[..respLen]) else Nothing
    }

    constructor ()
      ensures Valid() && Abs() == Nothing && fresh(respData)
    {
      respData := new byte[MAX_DATA](_ => 0);
      respCmd, respLen, respStatus, respPending := 0, 0, 0, false;
    }

    method CopyIn(src: seq<byte>)
      requires Valid() && |src| <= MAX_DATA
      modifies respData
      ensures respData[..|src|] == src
    {
      for i := 0 to |src|
        invariant respData[..i] == src[..i]
      {
        respData[i] := src[i];
      }
    }

    /** on_cmd_response: the latest response replaces an unconsumed one. */
    method OnCmdResponse(r: Response)
      requires Valid()
      modifies this, respData
      ensures Valid() && Abs() == Deposited(r)
    {
      respCmd, respStatus := r.word, r.status;
      var copy := if |r.data| < MAX_DATA then |r.data| else MAX_DATA;
      CopyIn(r.data[..copy]);
      respLen := copy;
      respPending := true;
    }

    /** The reset at the start of send_and_wait. */
    method Clear()
      requires Valid()
      modifies this`respPending
      ensures Valid() && Abs() == Nothing
    {
      respPending := false;
    }

    /** The end of send_and_wait; None when nothing is pending and the wait goes on. */
    method Consume(cmd: nat, outBuf: array<byte>) returns (r: Option<Taken>)
      requires Valid() && outBuf != respData
      modifies this`respPending, outBuf
      ensures Valid() && Abs() == Nothing
      ensures r == if old(Abs()) == Nothing then None else Some(Take(old(Abs()), cmd, outBuf.Length))
      ensures old(Abs()).Holding? ==>
        var data, n := old(Abs()).data, Min(outBuf.Length, |old(Abs()).data|);
        && outBuf[..n] == data[..n] && outBuf[n..] == old(outBuf[..])[n..]
        && r.Some? && r.value.reportedLen == |data|
        && r.value.ret == (if old(Abs()).status == 0 then 0 else -1)
      ensures r.None? ==> outBuf[..] == old(outBuf[..])
      ensures r.Some? ==> outBuf[..] == r.value.copied + old(outBuf[..])[|r.value.copied|..]
    {
      if !respPending {
        return None;
      }
      respPending := false;
      var copy := if respLen < outBuf.Length then respLen else outBuf.Length;
      ghost var held := respData[..respLen];
      assert respData[..copy] == held[..copy];
      CopyOut(respData[..copy], outBuf);
      r := Some(Taken(respData[..copy], respLen, if respStatus == 0 then 0 else -1,
                      respCmd == (cmd + RESP_OFFSET) % 0x1_0000));
    }

    static method CopyOut(src: seq<byte>, outBuf: array<byte>)
      requires |src| <= outBuf.Length
      modifies outBuf
      ensures outBuf[..] == src + old(outBuf[..])[|src|..]
    {
      for i := 0 to |src|
        invariant outBuf[..i] == src[..i] && outBuf[i..] == old(outBuf[i..])
      {
        outBuf[i] := src[i];
        assert outBuf[..i + 1] == outBuf[..i] + [src[i]];
      }
      assert outBuf[..] == outBuf[..|src|] + outBuf[|src|..];
    }
  }

  // ---------------------------------------------------------------------------------------
  // Whole runs of the slot
  // ---------------------------------------------------------------------------------------

  datatype Event = Deposit(response: Response) | Reset | Wait(cmd: nat, cap: nat)

  /** The slot after a run, and what each successful wait got, in order. */
  datatype Outcome = Outcome(held: Held, taken: seq<Taken>)

  function Run(es: seq<Event>): Outcome {
    if es == [] then Outcome(Nothing, [])
    else
      var n := |es| - 1;
      var before := Run(es[..n]);
      match es[n]
      case Deposit(r) => before.(held := Deposited(r))
      case Reset => before.(held := Nothing)
      case Wait(cmd, cap) =>
        if before.held == Nothing then before
        else Outcome(Nothing, before.taken + [Take(before.held, cmd, cap)])
  }

  /** Deposits and nothing else. */
  predicate OnlyDeposits(es: seq<Event>) { forall i :: 0 <= i < |es| ==> es[i].Deposit? }

  /** After a reset, however many responses arrive before the caller looks, the wait gets the last
    * one, whatever was in the slot before; with a buffer of 128 bytes or more and a response within
    * the protocol's 128, it gets the response's data exactly. A wait with none arrived goes on. */
  lemma {:induction false} WaitGetsTheLast(before: seq<Event>, arrivals: seq<Event>, cmd: nat, cap: nat)
    requires OnlyDeposits(arrivals)
    ensures var es := before + [Reset] + arrivals;
      && Run(es).taken == Run(before).taken
      && Run(es).held == (if arrivals == [] then Nothing else Deposited(arrivals[|arrivals| - 1].response))
      && Run(es + [Wait(cmd, cap)]).taken == Run(before).taken + GotFrom(arrivals, cmd, cap)
  {
    var es := before + [Reset] + arrivals;
    DepositsLeaveLast(before, arrivals);
    assert (es + [Wait(cmd, cap)])[..|es|] == es;
  }

  function GotFrom(arrivals: seq<Event>, cmd: nat, cap: nat): (t: seq<Taken>)
    requires OnlyDeposits(arrivals)
    ensures t == [] <==> arrivals == []
    ensures arrivals != [] ==>
      var r := arrivals[|arrivals| - 1].response;
      && |t| == 1
      && t[0].ret == (if r.status == 0 then 0 else -1)
      && t[0].reportedLen == Min(|r.data|, MAX_DATA)
      && t[0].copied <= r.data && |t[0].copied| == Min(cap, Min(|r.data|, MAX_DATA))
      && (t[0].matched <==> r.word == (cmd + 0x0100) % 0x1_0000)
  {
    if arrivals == [] then [] else [Take(Deposited(arrivals[|arrivals| - 1].response), cmd, cap)]
  }

  lemma {:induction false} DepositsLeaveLast(before: seq<Event>, arrivals: seq<Event>)
    requires OnlyDeposits(arrivals)
    ensures var es := before + [Reset] + arrivals;
      && Run(es).taken == Run(before).taken
      && Run(es).held == (if arrivals == [] then Nothing else Deposited(arrivals[|arrivals| - 1].response))
  {
    var es := before + [Reset] + arrivals;
    if arrivals == [] {
      assert es == before + [Reset];
      assert es[..|es| - 1] == before;
    } else {
      var n := |arrivals| - 1;
      DepositsLeaveLast(before, arrivals[..n]);
      assert es[..|es| - 1] == before + [Reset] + arrivals[..n];
    }
  }
}
