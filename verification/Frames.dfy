/** The byte-at-a-time frame recogniser of ld2410s_uart/transport.c: which callbacks the reader thread
  * makes for a stream of bytes, and which streams of frames come through.
  */
module Frames {
  import opened Basics

  const CMD_HEADER: seq<byte> := [0xFD, 0xFC, 0xFB, 0xFA]
  const CMD_FOOTER: seq<byte> := [0x04, 0x03, 0x02, 0x01]
  const CAL_HEADER: seq<byte> := [0xF4, 0xF3, 0xF2, 0xF1]
  const CAL_FOOTER: seq<byte> := [0xF8, 0xF7, 0xF6, 0xF5]
  const BUF_SIZE: nat := 256

  function WriteU16(v: nat): (b: seq<byte>)
    ensures |b| == 2
  {
    [v % 256, v / 256 % 256]
  }

  function ReadU16(b: seq<byte>, i: nat): (v: nat)
    requires i + 2 <= |b|
    ensures v < 0x1_0000
  {
    (b[i] as int) + 256 * (b[i + 1] as int)
  }

  /** The low byte comes first. */
  lemma LittleEndian16(lo: byte, hi: byte)
    ensures WriteU16(hi * 256 + lo) == [lo, hi] && ReadU16([lo, hi], 0) == hi * 256 + lo
  {
  }

  lemma ReadWriteU16(v: nat)
    requires v < 0x1_0000
    ensures ReadU16(WriteU16(v), 0) == v
  {
  }

  // ---------------------------------------------------------------------------------------
  // Recognising one frame
  // ---------------------------------------------------------------------------------------

  predicate Match4(b: seq<byte>, i: nat, p: seq<byte>)
    requires i + 4 <= |b| && |p| == 4
  {
    b[i] == p[0] && b[i + 1] == p[1] && b[i + 2] == p[2] && b[i + 3] == p[3]
  }

  /** Where p occurs last within b[..limit]. */
  function LastMatch(b: seq<byte>, limit: nat, p: seq<byte>): (r: Option<nat>)
    requires limit <= |b| && |p| == 4
    ensures r.Some? ==> r.value + 4 <= limit && Match4(b, r.value, p)
    ensures forall i: nat :: (r.Some? ==> r.value < i) && i + 4 <= limit ==> !Match4(b, i, p)
  {
    if limit < 4 then None
    else if Match4(b, limit - 4, p) then Some(limit - 4)
    else LastMatch(b, limit - 1, p)
  }

  /** enum parse_result. */
  datatype Kind = NoFrame | ReportFrame | ResponseFrame | CalibrationFrame

  /** The transport's three callbacks with their arguments. */
  datatype Call =
    | OnReport(frame: seq<byte>)
    | OnResponse(cmd: nat, status: nat, data: seq<byte>)
    | OnCalibration(frame: seq<byte>)

  predicate EndsReport(b: seq<byte>) { 5 <= |b| && b[|b| - 5] == 0x6E && b[|b| - 1] == 0x62 }

  predicate Ends4(b: seq<byte>, p: seq<byte>)
    requires |p| == 4
  {
    4 <= |b| && Match4(b, |b| - 4, p)
  }

  function KindOf(b: seq<byte>): Kind {
    if EndsReport(b) then ReportFrame
    else if Ends4(b, CMD_FOOTER) then ResponseFrame
    else if Ends4(b, CAL_FOOTER) then CalibrationFrame
    else NoFrame
  }

  /** handle_cmd_response: too short a frame is dropped; the length field is only reported on. */
  function HandleResponse(frame: seq<byte>): seq<Call> {
    if |frame| < 14 then []
    else [OnResponse(ReadU16(frame, 6), ReadU16(frame, 8), frame[10..|frame| - 4])]
  }

  /** The bytes from the last header on. */
  function FrameAfter(b: seq<byte>, header: seq<byte>): Option<seq<byte>>
    requires 4 <= |b| && |header| == 4
  {
    match LastMatch(b, |b| - 4, header)
    case None => None
    case Some(i) => Some(b[i..])
  }

  /** The callbacks parse_buffer makes. */
  function CallsOf(b: seq<byte>): seq<Call> {
    match KindOf(b)
    case NoFrame => []
    case ReportFrame => [OnReport(b[|b| - 5..])]
    case ResponseFrame =>
      (match FrameAfter(b, CMD_HEADER)
       case None => []
       case Some(frame) => HandleResponse(frame))
    case CalibrationFrame =>
      (match FrameAfter(b, CAL_HEADER)
       case None => []
       case Some(frame) => [OnCalibration(frame)])
  }

  // ---------------------------------------------------------------------------------------
  // The reader loop
  // ---------------------------------------------------------------------------------------

  datatype Output = Output(buf: seq<byte>, calls: seq<Call>)

  /** One byte: a recognised frame empties the buffer, and so does a full buffer without one. */
  function Feed(buf: seq<byte>, x: byte): Output {
    var b := buf + [x];
    Output(if KindOf(b).NoFrame? && |b| < BUF_SIZE then b else [], CallsOf(b))
  }

  /** Output of one part of the input followed by that of the rest. */
  function Chain(one: Output, rest: Output): Output { Output(rest.buf, one.calls + rest.calls) }

  function Scan(step: (seq<byte>, byte) -> Output, buf: seq<byte>, xs: seq<byte>): Output
    decreases |xs|
  {
    if xs == [] then Output(buf, [])
    else
      var one := step(buf, xs[0]);
      Chain(one, Scan(step, one.buf, xs[1..]))
  }

  /** The reader loop over the bytes xs. */
  function FeedAll(buf: seq<byte>, xs: seq<byte>): Output { Scan(Feed, buf, xs) }

  lemma {:induction false} ScanConcat(step: (seq<byte>, byte) -> Output, buf: seq<byte>, xs: seq<byte>, ys: seq<byte>)
    ensures var first := Scan(step, buf, xs);
      Scan(step, buf, xs + ys) == Chain(first, Scan(step, first.buf, ys))
    decreases |xs|
  {
    if xs == [] {
      assert xs + ys == ys;
    } else {
      assert (xs + ys)[1..] == xs[1..] + ys;
      ScanConcat(step, step(buf, xs[0]).buf, xs[1..], ys);
    }
  }

  lemma FeedLast(buf: seq<byte>, xs: seq<byte>)
    requires |xs| == 1
    ensures FeedAll(buf, xs) == Feed(buf, xs[0])
  {
    var one := Feed(buf, xs[0]);
    assert Scan(Feed, one.buf, xs[1..]) == Output(one.buf, []);
    assert one.calls + [] == one.calls;
  }

  lemma FeedAllConcat(buf: seq<byte>, xs: seq<byte>, ys: seq<byte>)
    ensures var first := FeedAll(buf, xs);
      FeedAll(buf, xs + ys) == Chain(first, FeedAll(first.buf, ys))
  {
    ScanConcat(Feed, buf, xs, ys);
  }

  /** The reader thread's local buffer, and the callbacks it has made. */
  class Reader {
    const buf: array<byte>
    var bufLen: nat
    var calls: seq<Call>

    ghost predicate Valid()
      reads this
    {
      buf.Length == BUF_SIZE && bufLen < BUF_SIZE
    }

    ghost function View(): seq<byte>
      requires Valid()
      reads this, buf
    {
      buf[..bufLen]
    }

    constructor ()
      ensures Valid() && View() == [] && calls == [] && fresh(buf)
    {
      buf := new byte[BUF_SIZE](_ => 0);
      bufLen := 0;
      calls := [];
    }

    /** memrfind4 over buf[..len]. */
    method Memrfind4(len: nat, p: seq<byte>) returns (r: Option<nat>)
      requires len <= buf.Length && |p| == 4
      ensures r == LastMatch(buf[..], len, p)
    {
      if len < 4 {
        return None;
      }
      var i := len - 4;
      while true
        invariant i + 4 <= len
        invariant LastMatch(buf[..], len, p) == LastMatch(buf[..], i + 4, p)
        decreases i
      {
        if buf[i] == p[0] && buf[i + 1] == p[1] && buf[i + 2] == p[2] && buf[i + 3] == p[3] {
          return Some(i);
        }
        if i == 0 {
          break;
        }
        i := i - 1;
      }
      r := None;
    }

    /** The bytes of buf[..n] from the last header on, its terminator included. */
    method FrameFrom(n: nat, header: seq<byte>) returns (frame: Option<seq<byte>>)
      requires 4 <= n <= buf.Length && |header| == 4
      ensures frame == FrameAfter(buf[..n], header)
    {
      var hdr := Memrfind4(n - 4, header);
      LastMatchPrefix(buf[..], n, n - 4, header);
      if hdr.None? {
        return None;
      }
      frame := Some(buf[hdr.value..n]);
      assert buf[hdr.value..n] == buf[..n][hdr.value..];
    }

    /** parse_buffer over buf[..n]. */
    method ParseBuffer(n: nat) returns (k: Kind)
      requires n <= buf.Length
      modifies this`calls
      ensures k == KindOf(buf[..n])
      ensures calls == old(calls) + CallsOf(buf[..n])
    {
      ghost var b := buf[..n];
      if n >= 5 && buf[n - 5] == 0x6E && buf[n - 1] == 0x62 {
        assert KindOf(b) == ReportFrame;
        assert buf[n - 5..n] == b[n - 5..];
        calls := calls + [OnReport(buf[n - 5..n])];
        return ReportFrame;
      }
      if n >= 4 && buf[n - 4] == 0x04 && buf[n - 3] == 0x03 && buf[n - 2] == 0x02 && buf[n - 1] == 0x01 {
        assert KindOf(b) == ResponseFrame;
        var frame := FrameFrom(n, CMD_HEADER);
        if frame.Some? {
          calls := calls + HandleResponse(frame.value);
        }
        return ResponseFrame;
      }
      if n >= 4 && buf[n - 4] == 0xF8 && buf[n - 3] == 0xF7 && buf[n - 2] == 0xF6 && buf[n - 1] == 0xF5 {
        assert KindOf(b) == CalibrationFrame;
        var frame := FrameFrom(n, CAL_HEADER);
        if frame.Some? {
          calls := calls + [OnCalibration(frame.value)];
        }
        return CalibrationFrame;
      }
      assert KindOf(b) == NoFrame;
      k := NoFrame;
    }

    /** The part of the reader loop that follows a successful read of one byte. */
    method PushByte(x: byte) returns (k: Kind)
      requires Valid()
      modifies this`bufLen, this`calls, buf
      ensures Valid()
      ensures View() == Feed(old(View()), x).buf
      ensures calls == old(calls) + Feed(old(View()), x).calls
      ensures k == KindOf(old(View()) + [x])
    {
      buf[bufLen] := x;
      bufLen := bufLen + 1;
      assert buf[..bufLen] == old(View()) + [x];
      k := ParseBuffer(bufLen);
      if k != NoFrame {
        bufLen := 0;
      }
      if bufLen >= BUF_SIZE {
        bufLen := 0;
      }
    }

    /** The reader loop over the bytes it reads. */
    method Receive(xs: seq<byte>)
      requires Valid()
      modifies this`bufLen, this`calls, buf
      ensures Valid()
      ensures View() == FeedAll(old(View()), xs).buf
      ensures calls == old(calls) + FeedAll(old(View()), xs).calls
    {
      ghost var start, before, out := View(), calls, Output(View(), []);
      for i := 0 to |xs|
        invariant Valid()
        invariant FedTo(start, xs, i, out)
        invariant View() == out.buf && calls == before + out.calls
      {
        ghost var one := Feed(out.buf, xs[i]);
        FeedOneMore(start, xs, i, out);
        var k := PushByte(xs[i]);
        assert before + out.calls + one.calls == before + (out.calls + one.calls);
        out := Chain(out, one);
      }
      FedToEnd(start, xs, out);
    }
  }

  /** What the first i bytes lead to. */
  predicate FedTo(buf: seq<byte>, xs: seq<byte>, i: nat, out: Output)
  {
    i <= |xs| && out == FeedAll(buf, xs[..i])
  }

  lemma FeedOneMore(buf: seq<byte>, xs: seq<byte>, i: nat, out: Output)
    requires i < |xs| && FedTo(buf, xs, i, out)
    ensures FedTo(buf, xs, i + 1, Chain(out, Feed(out.buf, xs[i])))
  {
    assert xs[..i + 1] == xs[..i] + [xs[i]];
    FeedAllConcat(buf, xs[..i], [xs[i]]);
    FeedLast(out.buf, [xs[i]]);
  }

  lemma FedToEnd(buf: seq<byte>, xs: seq<byte>, out: Output)
    requires FedTo(buf, xs, |xs|, out)
    ensures out == FeedAll(buf, xs)
  {
    assert xs[..|xs|] == xs;
  }

  lemma {:induction false} LastMatchPrefix(b: seq<byte>, n: nat, limit: nat, p: seq<byte>)
    requires limit <= n <= |b| && |p| == 4
    ensures LastMatch(b[..n], limit, p) == LastMatch(b, limit, p)
    decreases limit
  {
    if limit >= 4 && !Match4(b, limit - 4, p) {
      LastMatchPrefix(b, n, limit - 1, p);
    }
  }

  // ---------------------------------------------------------------------------------------
  // Round trip
  // ---------------------------------------------------------------------------------------

  /** What the sensor sends. */
  datatype Frame =
    | Report(state: byte, distance: nat)
    | Response(cmd: nat, status: nat, data: seq<byte>)
    | Calibration(payload: seq<byte>)
  {
    ghost predicate Valid() {
      match this
      case Report(_, distance) => distance < 0x1_0000
      case Response(cmd, status, _) => cmd < 0x1_0000 && status < 0x1_0000
      case Calibration(_) => true
    }
  }

  function Header(f: Frame): seq<byte>
    requires !f.Report?
  {
    if f.Response? then CMD_HEADER else CAL_HEADER
  }

  function Footer(f: Frame): seq<byte>
    requires !f.Report?
  {
    if f.Response? then CMD_FOOTER else CAL_FOOTER
  }

  /** Everything between header and footer, the length field included. */
  function Body(f: Frame): seq<byte>
    requires !f.Report?
  {
    if f.Response? then WriteU16(4 + |f.data|) + WriteU16(f.cmd) + WriteU16(f.status) + f.data
    else WriteU16(|f.payload|) + f.payload
  }

  function Encode(f: Frame): seq<byte> {
    if f.Report? then [0x6E, f.state] + WriteU16(f.distance) + [0x62]
    else Header(f) + Body(f) + Footer(f)
  }

  /** The callback a frame is meant to cause. */
  function Meaning(f: Frame): Call {
    match f
    case Report(_, _) => OnReport(Encode(f))
    case Response(cmd, status, data) => OnResponse(cmd, status, data)
    case Calibration(_) => OnCalibration(Encode(f))
  }

  /** A body that cannot be mistaken for the end of a frame or for the start of another. */
  predicate CleanBody(body: seq<byte>, header: seq<byte>)
    requires |header| == 4
  {
    && (forall i: nat :: i + 4 <= |body| ==>
          !Match4(body, i, CMD_FOOTER) && !Match4(body, i, CAL_FOOTER) && !Match4(body, i, header))
    && (forall i: nat :: i + 4 < |body| ==> !(body[i] == 0x6E && body[i + 4] == 0x62))
  }

  /** The frames that survive the byte stream; see RoundTripIff. */
  predicate Transmissible(f: Frame) {
    f.Report? || (CleanBody(Body(f), Header(f)) && |Encode(f)| <= BUF_SIZE)
  }

  lemma EncodeAt(f: Frame, i: nat)
    requires !f.Report? && i < |Encode(f)|
    ensures |Encode(f)| == |Body(f)| + 8
    ensures Encode(f)[i] ==
      if i < 4 then Header(f)[i]
      else if i < |Body(f)| + 4 then Body(f)[i - 4]
      else Footer(f)[i - 4 - |Body(f)|]
  {
  }

  /** A match that stays clear of head and tail is a match in the middle. */
  lemma MatchInMiddle(h: seq<byte>, b: seq<byte>, g: seq<byte>, i: nat, p: seq<byte>)
    requires |h| == |g| == |p| == 4 && 4 <= i && i + 4 <= |b| + 4
    ensures Match4(h + b + g, i, p) == Match4(b, i - 4, p)
  {
    var e := h + b + g;
    assert e[i] == b[i - 4] && e[i + 1] == b[i - 3] && e[i + 2] == b[i - 2] && e[i + 3] == b[i - 1];
  }

  /** A match across either edge would need the head's last byte or the tail's first inside p. */
  lemma NoMatchAcross(h: seq<byte>, b: seq<byte>, g: seq<byte>, i: nat, p: seq<byte>)
    requires |h| == |g| == |p| == 4 && i < |b| + 4 && (i < 4 || |b| + 4 < i + 4)
    requires h[3] !in p && g[0] !in p[1..]
    ensures !Match4(h + b + g, i, p)
  {
    var e := h + b + g;
    if i < 4 {
      assert e[3] == h[3] && p[3 - i] != h[3];
    } else {
      var k := |b| + 4 - i;
      assert e[|b| + 4] == g[0] && p[1..][k - 1] == p[k];
    }
  }

  /** A terminator holds neither the last byte of a header nor, past its first, the first byte of a
    * terminator. */
  lemma TerminatorApart(f: Frame, p: seq<byte>)
    requires !f.Report? && (p == CMD_FOOTER || p == CAL_FOOTER)
    ensures Header(f)[3] !in p && Footer(f)[0] !in p[1..]
  {
    assert p[1..] == [0x03, 0x02, 0x01] || p[1..] == [0xF7, 0xF6, 0xF5];
  }

  lemma NoEarlyFooter(f: Frame, n: nat, p: seq<byte>)
    requires !f.Report? && CleanBody(Body(f), Header(f)) && 4 <= n < |Encode(f)|
    requires p == CMD_FOOTER || p == CAL_FOOTER
    ensures !Match4(Encode(f), n - 4, p)
  {
    TerminatorApart(f, p);
    NoTerminatorInside(Header(f), Body(f), Footer(f), n - 4, p);
  }

  lemma NoTerminatorInside(h: seq<byte>, b: seq<byte>, g: seq<byte>, i: nat, p: seq<byte>)
    requires |h| == |g| == |p| == 4 && i < |b| + 4
    requires h[3] !in p && g[0] !in p[1..]
    requires forall k: nat :: k + 4 <= |b| ==> !Match4(b, k, p)
    ensures !Match4(h + b + g, i, p)
  {
    if 4 <= i && i + 4 <= |b| + 4 {
      MatchInMiddle(h, b, g, i, p);
    } else {
      NoMatchAcross(h, b, g, i, p);
    }
  }

  lemma NoEarlyReport(f: Frame, n: nat)
    requires !f.Report? && CleanBody(Body(f), Header(f)) && 5 <= n <= |Encode(f)|
    ensures !(Encode(f)[n - 5] == 0x6E && Encode(f)[n - 1] == 0x62)
  {
    EncodeAt(f, n - 5);
    EncodeAt(f, n - 1);
  }

  predicate QuietAt(e: seq<byte>, m: nat) { m <= |e| && KindOf(e[..m]).NoFrame? }

  /** Nothing is recognised in the prefixes of e longer than n, e itself excepted. */
  ghost predicate Quiet(e: seq<byte>, n: nat) {
    forall m: nat :: n < m < |e| ==> QuietAt(e, m)
  }

  lemma PrefixKind(e: seq<byte>, n: nat)
    requires n <= |e|
    ensures KindOf(e[..n]).NoFrame? <==>
      && !(5 <= n && e[n - 5] == 0x6E && e[n - 1] == 0x62)
      && !(4 <= n && (Match4(e, n - 4, CMD_FOOTER) || Match4(e, n - 4, CAL_FOOTER)))
  {
  }

  /** Within a clean frame nothing is recognised before its last byte. */
  lemma NothingEarly(f: Frame)
    requires !f.Report? && CleanBody(Body(f), Header(f))
    ensures Quiet(Encode(f), 0)
  {
    var e := Encode(f);
    forall n: nat | 0 < n < |e|
      ensures QuietAt(e, n)
    {
      PrefixKind(e, n);
      if 4 <= n {
        NoEarlyFooter(f, n, CMD_FOOTER);
        NoEarlyFooter(f, n, CAL_FOOTER);
        if 5 <= n {
          NoEarlyReport(f, n);
        }
      }
    }
  }

  lemma HeaderInBody(f: Frame, i: nat)
    requires !f.Report? && 4 <= i && i + 8 <= |Encode(f)| && Match4(Encode(f), i, Header(f))
    ensures i + 4 <= |Body(f)| + 4 && Match4(Body(f), i - 4, Header(f))
  {
    MatchInMiddle(Header(f), Body(f), Footer(f), i, Header(f));
  }

  lemma HeaderIsLast(f: Frame)
    requires !f.Report? && CleanBody(Body(f), Header(f))
    ensures LastMatch(Encode(f), |Encode(f)| - 4, Header(f)) == Some(0)
  {
    var e, h := Encode(f), Header(f);
    var r := LastMatch(e, |e| - 4, h);
    assert Match4(e, 0, h);
    if r.Some? && 0 < r.value {
      var i := r.value;
      EncodeAt(f, i);
      if 4 <= i {
        HeaderInBody(f, i);
      }
    }
  }

  lemma EndsWithFooter(f: Frame)
    requires !f.Report?
    ensures var e := Encode(f);
      && Ends4(e, Footer(f)) && !EndsReport(e)
      && KindOf(e) == if f.Response? then ResponseFrame else CalibrationFrame
  {
    var n := |Encode(f)|;
    EncodeAt(f, n - 4);
    EncodeAt(f, n - 3);
    EncodeAt(f, n - 2);
    EncodeAt(f, n - 1);
  }

  lemma ResponseFields(f: Frame)
    requires f.Response? && f.Valid()
    ensures HandleResponse(Encode(f)) == [Meaning(f)]
  {
    var e := Encode(f);
    EncodeAt(f, 6);
    EncodeAt(f, 7);
    EncodeAt(f, 8);
    EncodeAt(f, 9);
    ReadWriteU16(f.cmd);
    ReadWriteU16(f.status);
    assert e[10..|e| - 4] == f.data;
  }

  lemma WholeFrameMeans(f: Frame)
    requires !f.Report? && f.Valid() && CleanBody(Body(f), Header(f))
    ensures CallsOf(Encode(f)) == [Meaning(f)]
  {
    EndsWithFooter(f);
    HeaderIsLast(f);
    assert Encode(f)[0..] == Encode(f);
    if f.Response? {
      ResponseFields(f);
    }
  }

  /** One more byte of e. */
  lemma FeedFirst(e: seq<byte>, n: nat)
    requires n < |e|
    ensures var one := Feed(e[..n], e[n]);
      FeedAll(e[..n], e[n..]) == Chain(one, FeedAll(one.buf, e[n + 1..]))
  {
    assert e[n..][1..] == e[n + 1..];
  }

  lemma QuietByte(e: seq<byte>, n: nat)
    requires n + 1 <= |e| && n + 1 < BUF_SIZE && QuietAt(e, n + 1)
    ensures Feed(e[..n], e[n]) == Output(e[..n + 1], [])
  {
    assert e[..n] + [e[n]] == e[..n + 1];
  }

  lemma RecognisedByte(e: seq<byte>, n: nat)
    requires n + 1 <= |e| && (!QuietAt(e, n + 1) || BUF_SIZE <= n + 1)
    ensures Feed(e[..n], e[n]) == Output([], CallsOf(e[..n + 1]))
  {
    assert e[..n] + [e[n]] == e[..n + 1];
  }

  /** From n quiet bytes of a frame to its end. */
  lemma {:induction false} FeedRest(e: seq<byte>, n: nat)
    requires n < |e| <= BUF_SIZE
    requires Quiet(e, n) && !KindOf(e).NoFrame?
    ensures FeedAll(e[..n], e[n..]) == Output([], CallsOf(e))
    decreases |e| - n
  {
    if n + 1 == |e| {
      LastByte(e);
    } else {
      assert QuietAt(e, n + 1);
      QuietStep(e, n);
      FeedRest(e, n + 1);
    }
  }

  lemma QuietStep(e: seq<byte>, n: nat)
    requires n + 1 < |e| && n + 1 < BUF_SIZE && QuietAt(e, n + 1)
    ensures FeedAll(e[..n], e[n..]) == FeedAll(e[..n + 1], e[n + 1..])
  {
    FeedFirst(e, n);
    QuietByte(e, n);
    var rest := FeedAll(e[..n + 1], e[n + 1..]);
    assert [] + rest.calls == rest.calls;
  }

  lemma LastByte(e: seq<byte>)
    requires 0 < |e| && !KindOf(e).NoFrame?
    ensures FeedAll(e[..|e| - 1], e[|e| - 1..]) == Output([], CallsOf(e))
  {
    var n := |e| - 1;
    assert e[..n + 1] == e;
    RecognisedByte(e, n);
    FeedLast(e[..n], e[n..]);
  }

  lemma ReportEncoded(f: Frame)
    requires f.Report?
    ensures |Encode(f)| == 5 && KindOf(Encode(f)) == ReportFrame && CallsOf(Encode(f)) == [Meaning(f)]
    ensures Quiet(Encode(f), 0)
  {
    assert Encode(f)[0..] == Encode(f);
  }

  /** One frame, from an empty buffer. */
  lemma FrameRoundTrip(f: Frame)
    requires f.Valid() && Transmissible(f)
    ensures FeedAll([], Encode(f)) == Output([], [Meaning(f)])
  {
    var e := Encode(f);
    if f.Report? {
      ReportEncoded(f);
    } else {
      NothingEarly(f);
      EndsWithFooter(f);
      WholeFrameMeans(f);
    }
    FeedRest(e, 0);
    assert e[..0] == [] && e[0..] == e;
  }

  function EncodeAll(fs: seq<Frame>): seq<byte> {
    if fs == [] then [] else Encode(fs[0]) + EncodeAll(fs[1..])
  }

  function Meanings(fs: seq<Frame>): (calls: seq<Call>)
    ensures |calls| == |fs|
  {
    if fs == [] then [] else [Meaning(fs[0])] + Meanings(fs[1..])
  }

  /** One more frame in front. */
  lemma StreamStep(e: seq<byte>, es: seq<byte>, call: Call, calls: seq<Call>)
    requires FeedAll([], e) == Output([], [call]) && FeedAll([], es) == Output([], calls)
    ensures FeedAll([], e + es) == Output([], [call] + calls)
  {
    FeedAllConcat([], e, es);
  }

  /** Any concatenation of transmissible frames, fed byte by byte, yields exactly those frames in
    * order and leaves the buffer empty. */
  lemma {:induction false} StreamRoundTrip(fs: seq<Frame>)
    requires forall i :: 0 <= i < |fs| ==> fs[i].Valid() && Transmissible(fs[i])
    ensures FeedAll([], EncodeAll(fs)) == Output([], Meanings(fs))
  {
    if fs != [] {
      var f, rest := fs[0], fs[1..];
      FrameRoundTrip(f);
      StreamRoundTrip(rest);
      StreamStep(Encode(f), EncodeAll(rest), Meaning(f), Meanings(rest));
    }
  }

  // ---------------------------------------------------------------------------------------
  // ... and only transmissible frames survive
  // ---------------------------------------------------------------------------------------

  /** Bytes a callback accounts for. */
  function Size(c: Call): nat {
    match c
    case OnReport(frame) => |frame|
    case OnResponse(_, _, data) => |data| + 14
    case OnCalibration(frame) => |frame|
  }

  predicate AllSmaller(calls: seq<Call>, n: nat) {
    forall i :: 0 <= i < |calls| ==> Size(calls[i]) < n
  }

  lemma CallsFitBuffer(b: seq<byte>)
    ensures AllSmaller(CallsOf(b), |b| + 1)
  {
  }

  lemma SmallerJoined(one: Output, rest: Output, m: nat, k: nat, n: nat)
    requires AllSmaller(one.calls, m) && AllSmaller(rest.calls, k) && m <= n && k <= n
    ensures AllSmaller(Chain(one, rest).calls, n)
  {
  }

  lemma FeedFits(buf: seq<byte>, x: byte)
    ensures AllSmaller(Feed(buf, x).calls, |buf| + 2) && |Feed(buf, x).buf| <= |buf| + 1
  {
    CallsFitBuffer(buf + [x]);
  }

  lemma {:induction false} CallsFitStream(buf: seq<byte>, xs: seq<byte>)
    ensures AllSmaller(FeedAll(buf, xs).calls, |buf| + |xs| + 1)
    decreases |xs|
  {
    if xs != [] {
      var one := Feed(buf, xs[0]);
      FeedFits(buf, xs[0]);
      CallsFitStream(one.buf, xs[1..]);
      SmallerJoined(one, FeedAll(one.buf, xs[1..]), |buf| + 2, |one.buf| + |xs|, |buf| + |xs| + 1);
    }
  }

  lemma QuietFrom(e: seq<byte>, n: nat)
    requires Quiet(e, n + 1) && QuietAt(e, n + 1)
    ensures Quiet(e, n)
  {
    forall m: nat | n < m < |e|
      ensures QuietAt(e, m)
    {
      assert m > n + 1 ==> QuietAt(e, m);
    }
  }

  /** A buffer emptied before the last byte of e leaves only smaller frames. */
  lemma EmptiedEarly(e: seq<byte>, n: nat)
    requires n + 1 < |e| && (!QuietAt(e, n + 1) || BUF_SIZE <= n + 1)
    ensures AllSmaller(FeedAll(e[..n], e[n..]).calls, |e|)
  {
    FeedFirst(e, n);
    RecognisedByte(e, n);
    CallsFitBuffer(e[..n + 1]);
    CallsFitStream([], e[n + 1..]);
    SmallerJoined(Feed(e[..n], e[n]), FeedAll([], e[n + 1..]), n + 2, |e| - n, |e|);
  }

  /** Either the buffer is emptied before the frame is complete, and then only smaller frames come
    * out, or it never is. */
  lemma {:induction false} EarlyEndOrQuiet(e: seq<byte>, n: nat)
    requires n < |e| && n < BUF_SIZE
    ensures AllSmaller(FeedAll(e[..n], e[n..]).calls, |e|) || (|e| <= BUF_SIZE && Quiet(e, n))
    decreases |e| - n
  {
    if n + 1 < |e| {
      if QuietAt(e, n + 1) && n + 1 < BUF_SIZE {
        QuietStep(e, n);
        EarlyEndOrQuiet(e, n + 1);
        if Quiet(e, n + 1) { QuietFrom(e, n); }
      } else {
        EmptiedEarly(e, n);
      }
    }
  }

  lemma ReportInside(f: Frame, i: nat)
    requires !f.Report? && i + 4 < |Body(f)| && Body(f)[i] == 0x6E && Body(f)[i + 4] == 0x62
    ensures !Quiet(Encode(f), 0)
  {
    var e := Encode(f);
    EncodeAt(f, i + 4);
    EncodeAt(f, i + 8);
    PrefixKind(e, i + 9);
    assert !QuietAt(e, i + 9);
  }

  lemma TerminatorSeen(e: seq<byte>, m: nat, p: seq<byte>)
    requires 4 <= m <= |e| && (p == CMD_FOOTER || p == CAL_FOOTER) && Match4(e, m - 4, p)
    ensures !QuietAt(e, m)
  {
    PrefixKind(e, m);
  }

  lemma FooterInside(f: Frame, i: nat, p: seq<byte>)
    requires !f.Report? && i + 4 <= |Body(f)| && (p == CMD_FOOTER || p == CAL_FOOTER) && Match4(Body(f), i, p)
    ensures !Quiet(Encode(f), 0)
  {
    var e := Encode(f);
    MatchInMiddle(Header(f), Body(f), Footer(f), i + 4, p);
    TerminatorSeen(e, i + 8, p);
  }

  /** Recognised, but with its last header after its first byte. */
  lemma LateHeaderSmaller(e: seq<byte>, header: seq<byte>, i: nat)
    requires 8 <= |e| && 0 < i && i + 4 <= |e| - 4
    requires (KindOf(e) == ResponseFrame && header == CMD_HEADER)
          || (KindOf(e) == CalibrationFrame && header == CAL_HEADER)
    requires Match4(e, i, header)
    ensures AllSmaller(CallsOf(e), |e|)
  {
    var frame := FrameAfter(e, header);
    assert frame.Some? && |frame.value| < |e|;
  }

  lemma HeaderInside(f: Frame, i: nat)
    requires !f.Report? && i + 4 <= |Body(f)| && Match4(Body(f), i, Header(f))
    ensures AllSmaller(CallsOf(Encode(f)), |Encode(f)|)
  {
    MatchInMiddle(Header(f), Body(f), Footer(f), i + 4, Header(f));
    EndsWithFooter(f);
    LateHeaderSmaller(Encode(f), Header(f), i + 4);
  }

  lemma UncleanIsRecognised(f: Frame)
    requires !f.Report? && !CleanBody(Body(f), Header(f)) && Quiet(Encode(f), 0)
    ensures AllSmaller(CallsOf(Encode(f)), |Encode(f)|)
  {
    var body, h := Body(f), Header(f);
    forall i: nat | i + 4 < |body|
      ensures !(body[i] == 0x6E && body[i + 4] == 0x62)
    {
      if body[i] == 0x6E && body[i + 4] == 0x62 { ReportInside(f, i); }
    }
    forall i: nat | i + 4 <= |body|
      ensures !Match4(body, i, CMD_FOOTER) && !Match4(body, i, CAL_FOOTER)
    {
      if Match4(body, i, CMD_FOOTER) { FooterInside(f, i, CMD_FOOTER); }
      if Match4(body, i, CAL_FOOTER) { FooterInside(f, i, CAL_FOOTER); }
    }
    var i: nat :| i + 4 <= |body| && Match4(body, i, h);
    HeaderInside(f, i);
  }

  /** A frame comes through alone exactly when its body is clean and it fits the buffer. */
  lemma RoundTripIff(f: Frame)
    requires f.Valid()
    ensures FeedAll([], Encode(f)) == Output([], [Meaning(f)]) <==> Transmissible(f)
  {
    if Transmissible(f) {
      FrameRoundTrip(f);
    } else {
      var e := Encode(f);
      assert e[..0] == [] && e[0..] == e;
      MeaningSize(f);
      EarlyEndOrQuiet(e, 0);
      if |e| <= BUF_SIZE && Quiet(e, 0) {
        EndsWithFooter(f);
        FeedRest(e, 0);
        UncleanIsRecognised(f);
      }
      SmallerCallsDiffer(FeedAll([], e).calls, Meaning(f), |e|);
    }
  }

  lemma SmallerCallsDiffer(calls: seq<Call>, c: Call, n: nat)
    requires AllSmaller(calls, n) && n <= Size(c)
    ensures calls != [c]
  {
    if |calls| == 1 {
      assert Size(calls[0]) < n;
    }
  }

  lemma MeaningSize(f: Frame)
    ensures Size(Meaning(f)) == |Encode(f)|
  {
  }
}
