/** The HTTP session of photo-provider/www_session.c: the response buffer, the registration reply,
  * and the setters that re-register. What the network does is a parameter of each call.
  */
module WwwSession {
  import opened Basics

  const IMG_MIN_SZ := 128
  const IMG_MAX_SZ := 3840
  const MAX_CLIENT_ID := 128
  const NUL := 0 as char

  // ---------------------------------------------------------------------------------------
  // The response buffer
  // ---------------------------------------------------------------------------------------

  /** struct mem_buf and write_to_mem. */
  class MemBuf {
    var data: array<char>
    var len: nat

    ghost predicate Valid()
      reads this, data
    {
      && (data.Length == 0 ==> len == 0)
      && (data.Length != 0 ==> len < data.Length && data[len] == NUL)
      // doubling never takes more than twice what is needed, past the first 4096
      && data.Length <= Max(4096, 2 * (len + 1))
    }

    ghost function Contents(): string
      requires len <= data.Length
      reads this, data
    {
      data[..len]
    }

    constructor ()
      ensures Valid() && fresh(data) && Contents() == []
    {
      data := new char[0];
      len := 0;
    }

    /** The new capacity for `needed` bytes. */
    method Grown(needed: nat) returns (nc: nat)
      requires data.Length < needed
      ensures needed <= nc <= Max(4096, 2 * needed)
      ensures data.Length < nc
    {
      nc := if data.Length != 0 then data.Length * 2 else 4096;
      while nc < needed
        invariant 0 < nc <= Max(4096, 2 * needed) && data.Length < nc
        decreases needed - nc
      {
        nc := nc * 2;
      }
    }

    /** realloc to nc bytes. */
    method Realloc(nc: nat)
      requires len <= data.Length < nc
      modifies this`data
      ensures fresh(data) && data.Length == nc && Contents() == old(Contents())
    {
      var p := new char[nc](_ => NUL);
      for i := 0 to len
        invariant len <= data.Length == old(data.Length) && data == old(data) && p.Length == nc
        invariant forall k :: 0 <= k < i ==> p[k] == data[k]
      {
        p[i] := data[i];
      }
      data := p;
    }

    method CopyIn(chunk: string)
      requires len + |chunk| < data.Length
      modifies data
      ensures data[..len] == old(data[..len]) && data[len..len + |chunk|] == chunk
    {
      for i := 0 to |chunk|
        invariant data[..len] == old(data[..len]) && data[len..len + i] == chunk[..i]
      {
        data[len + i] := chunk[i];
      }
    }

    /** Appends one received chunk; allocOk is the outcome of realloc, should it be called. */
    method Write(chunk: string, allocOk: bool) returns (taken: nat)
      requires Valid()
      modifies this, data
      ensures Valid()
      ensures var full := old(len + |chunk| + 1 > data.Length);
        if full && !allocOk
        then taken == 0 && data == old(data) && data[..] == old(data[..]) && len == old(len)
        else taken == |chunk| && Contents() == old(Contents()) + chunk && (data == old(data) <==> !full)
      ensures data == old(data) || fresh(data)
    {
      if len + |chunk| + 1 > data.Length {
        var nc := Grown(len + |chunk| + 1);
        if !allocOk {
          return 0;
        }
        Realloc(nc);
      }
      ghost var before := Contents();
      CopyIn(chunk);
      assert data[..len + |chunk|] == data[..len] + data[len..len + |chunk|];
      len := len + |chunk|;
      data[len] := NUL;
      taken := |chunk|;
    }
  }

  // ---------------------------------------------------------------------------------------
  // The registration reply
  // ---------------------------------------------------------------------------------------

  predicate Blank(c: char) { c == ' ' || c == '\n' || c == '\r' || c == '\t' }

  /** Tab, line feed, carriage return and the blank, and no other white space. */
  lemma BlanksAre(c: char)
    ensures Blank(c) <==> c as int == 9 || c as int == 10 || c as int == 13 || c as int == 32
  {
  }

  predicate AllBlank(s: string) { forall i :: 0 <= i < |s| ==> Blank(s[i]) }

  predicate Tight(s: string) { s != [] ==> !Blank(s[0]) && !Blank(s[|s| - 1]) }

  function TrimLeft(s: string): (r: string)
  {
    if s != [] && Blank(s[0]) then TrimLeft(s[1..]) else s
  }

  function TrimRight(s: string): (r: string)
  {
    if s != [] && Blank(s[|s| - 1]) then TrimRight(s[..|s| - 1]) else s
  }

  function Trim(s: string): (r: string) { TrimRight(TrimLeft(s)) }

  lemma {:induction false} TrimLeftDrops(a: string, s: string)
    requires AllBlank(a)
    ensures TrimLeft(a + s) == TrimLeft(s)
  {
    if a == [] {
      assert a + s == s;
    } else {
      assert (a + s)[1..] == a[1..] + s;
      TrimLeftDrops(a[1..], s);
    }
  }

  lemma {:induction false} TrimRightDrops(s: string, b: string)
    requires AllBlank(b)
    ensures TrimRight(s + b) == TrimRight(s)
  {
    if b == [] {
      assert s + b == s;
    } else {
      var last := |b| - 1;
      assert (s + b)[..|s + b| - 1] == s + b[..last];
      TrimRightDrops(s, b[..last]);
    }
  }

  /** Trimming gives the one tight middle part: whatever way the text is split into blanks, a tight
    * part and blanks, that part is the result. */
  lemma TrimIsTheTightPart(a: string, r: string, b: string)
    requires AllBlank(a) && AllBlank(b) && Tight(r)
    ensures Trim(a + r + b) == r
  {
    assert a + r + b == a + (r + b);
    TrimLeftDrops(a, r + b);
    if r == [] {
      assert r + b == b + [];
      TrimLeftDrops(b, []);
    } else {
      TrimRightDrops(r, b);
    }
  }

  /** What a C string function sees of s. */
  function CString(s: string): (r: string)
    ensures r <= s && NUL !in r && (r == s || s[|r|] == NUL)
  {
    if s == [] || s[0] == NUL then [] else [s[0]] + CString(s[1..])
  }

  /** The id http_register hands on, if it succeeds; reply is the body of a 2xx answer. The length
    * check sees the trimmed body, every later use of the id only the part before a NUL. */
  function RegisteredId(reply: Option<string>): (id: Option<string>)
    ensures id.Some? <==> reply.Some? && 0 < |Trim(reply.value)| < MAX_CLIENT_ID
    ensures id.Some? ==> |id.value| < MAX_CLIENT_ID && NUL !in id.value
  {
    if reply.Some? && 0 < |Trim(reply.value)| < MAX_CLIENT_ID then Some(CString(Trim(reply.value))) else None
  }

  /** Which text that is: the reply without the blanks around it. */
  lemma RegisteredIdIs(a: string, r: string, b: string)
    requires AllBlank(a) && AllBlank(b) && Tight(r) && NUL !in r
    ensures RegisteredId(Some(a + r + b)) == if 0 < |r| < 128 then Some(r) else None
  {
    TrimIsTheTightPart(a, r, b);
    CStringWhole(r);
  }

  lemma CStringWhole(s: string)
    requires NUL !in s
    ensures CString(s) == s
  {
    assert CString(s) <= s;
  }

  /** http_register: the two trimming loops and the length check. */
  method HttpRegister(reply: Option<string>) returns (id: Option<string>)
    ensures id == RegisteredId(reply)
  {
    if reply.None? {
      return None;
    }
    var data := reply.value;
    var start, end := 0, |data|;
    while start < end && Blank(data[start])
      invariant 0 <= start <= end == |data|
      invariant TrimLeft(data) == TrimLeft(data[start..])
    {
      assert data[start..][1..] == data[start + 1..];
      start := start + 1;
    }
    assert data[start..end] == data[start..] == TrimLeft(data);
    while end > start && Blank(data[end - 1])
      invariant start <= end <= |data|
      invariant TrimRight(data[start..end]) == Trim(data)
    {
      assert data[start..end][..end - start - 1] == data[start..end - 1];
      end := end - 1;
    }
    assert data[start..end] == Trim(data);
    if end - start == 0 || end - start >= MAX_CLIENT_ID {
      return None;
    }
    id := Some(CString(data[start..end]));
  }

  // ---------------------------------------------------------------------------------------
  // Registration and configuration
  // ---------------------------------------------------------------------------------------

  datatype Config = Config(width: nat, height: nat, embedQr: bool)

  predicate InRange(w: nat, h: nat) {
    IMG_MIN_SZ <= w <= IMG_MAX_SZ && IMG_MIN_SZ <= h <= IMG_MAX_SZ
  }

  /** What the server has acknowledged for an id since it last handed it out. */
  datatype Acked = Acked(embedQr: Option<bool>, size: Option<(nat, nat)>)

  /** Outcome of the requests of one re-registration. */
  datatype Net = Net(reply: Option<string>, qrOk: bool, sizeOk: bool)

  /** The session, and the server as far as the session can know it. */
  datatype View = View(config: Config, clientId: string, server: map<string, Acked>, invalidations: nat)

  datatype Outcome = Outcome(view: View, ret: int)

  /** The server acknowledged, for the installed id, exactly the stored configuration. */
  predicate InSync(v: View) {
    && v.clientId in v.server
    && v.server[v.clientId] == Acked(Some(v.config.embedQr), Some((v.config.width, v.config.height)))
  }

  function Acknowledged(c: Config, net: Net): Acked {
    Acked(if net.qrOk then Some(c.embedQr) else None,
          if net.sizeOk then Some((c.width, c.height)) else None)
  }

  function Reregistered(v: View, net: Net): Outcome {
    var id := RegisteredId(net.reply);
    if id.None? then Outcome(v, -1)
    else Outcome(v.(clientId := id.value,
                    server := v.server[id.value := Acknowledged(v.config, net)],
                    invalidations := v.invalidations + 1), 0)
  }

  datatype Call =
    | SetTargetSize(width: nat, height: nat, net: Net)
    | SetEmbedQr(embedQr: bool, net: Net)

  /** The configuration a call asks for. */
  function Requested(v: View, c: Call): Config {
    match c
    case SetTargetSize(w, h, _) => v.config.(width := w, height := h)
    case SetEmbedQr(q, _) => v.config.(embedQr := q)
  }

  predicate Accepted(c: Call) { c.SetTargetSize? ==> InRange(c.width, c.height) }

  /** The call reaches for the network. */
  predicate Attempts(v: View, c: Call) { Accepted(c) && Requested(v, c) != v.config }

  function Do(v: View, c: Call): Outcome {
    if !Accepted(c) then Outcome(v, -1)
    else if Requested(v, c) == v.config then Outcome(v, 0)
    else Reregistered(v.(config := Requested(v, c)), c.net)
  }

  /** What a setter stores: an accepted size in its order, leaving the flag alone, or the flag, leaving the
    * size alone; a size out of range changes nothing. */
  lemma SetterStores(v: View, w: nat, h: nat, q: bool, net: Net)
    ensures var t := Do(v, SetTargetSize(w, h, net)).view;
      if 128 <= w <= 3840 && 128 <= h <= 3840
      then t.config.width == w && t.config.height == h && t.config.embedQr == v.config.embedQr
      else t == v
    ensures var t := Do(v, SetEmbedQr(q, net)).view;
      t.config.embedQr == q && t.config.width == v.config.width && t.config.height == v.config.height
  {
  }

  /** When a setter returns 0, and -1 otherwise: the size is in range, and either nothing was to change or
    * the server answered the registration with a usable id. */
  lemma SetterReturns(v: View, c: Call)
    ensures Do(v, c).ret == 0 || Do(v, c).ret == -1
    ensures Do(v, c).ret == 0 <==>
      && (c.SetTargetSize? ==> 128 <= c.width <= 3840 && 128 <= c.height <= 3840)
      && (Do(v, c).view.config == v.config || RegisteredId(c.net.reply).Some?)
  {
  }

  class Session {
    const urlBase: string
    var targetW: nat
    var targetH: nat
    var embedQr: bool
    var clientId: string
    ghost var server: map<string, Acked>
    /** Calls of on_invalidate. */
    ghost var invalidations: nat

    ghost function Abs(): View
      reads this
    {
      View(Config(targetW, targetH, embedQr), clientId, server, invalidations)
    }

    ghost predicate Valid()
      reads this
    {
      InRange(targetW, targetH) && |clientId| < MAX_CLIENT_ID && NUL !in clientId
    }

    constructor (url: string, w: nat, h: nat, qr: bool)
      requires url != "" && InRange(w, h)
      ensures Valid() && Abs() == View(Config(w, h, qr), "", map[], 0)
      ensures var base := if |url| < 256 then url else url[..255];
        urlBase == if base[|base| - 1] == '/' then base[..|base| - 1] else base
    {
      var base := if |url| < 256 then url else url[..255];
      urlBase := if base[|base| - 1] == '/' then base[..|base| - 1] else base;
      targetW, targetH, embedQr := w, h, qr;
      clientId, server, invalidations := "", map[], 0;
    }

    /** pp_www_session_init; `memoryOk` and `curlOk` say whether calloc and both curl_easy_init calls
      * succeed. */
    static method Init(url: string, w: nat, h: nat, qr: bool, connectTimeout: nat, requestTimeout: nat,
                       memoryOk: bool, curlOk: bool)
      returns (s: Session?)
      ensures s == null <==>
        url == "" || !InRange(w, h) || connectTimeout == 0 || requestTimeout == 0 || !memoryOk || !curlOk
      ensures s != null ==> fresh(s) && s.Valid() && s.Abs() == View(Config(w, h, qr), "", map[], 0)
    {
      if url == "" || w < IMG_MIN_SZ || h < IMG_MIN_SZ || w > IMG_MAX_SZ || h > IMG_MAX_SZ
         || connectTimeout == 0 || requestTimeout == 0 {
        return null;
      }
      if !memoryOk {
        return null;
      }
      s := new Session(url, w, h, qr);
      if !curlOk {
        s := null;
      }
    }

    method Reregister(net: Net) returns (ret: int)
      requires Valid()
      modifies this`clientId, this`server, this`invalidations
      ensures Valid() && Outcome(Abs(), ret) == Reregistered(old(Abs()), net)
    {
      var id := HttpRegister(net.reply);
      if id.None? {
        return -1;
      }
      // The results of the two pushes are not looked at.
      server := server[id.value := Acknowledged(Config(targetW, targetH, embedQr), net)];
      clientId := id.value;
      invalidations := invalidations + 1;
      ret := 0;
    }

    /** pp_www_session_set_target_size. */
    method SetTargetSize(w: nat, h: nat, net: Net) returns (ret: int)
      requires Valid()
      modifies this
      ensures Valid() && Outcome(Abs(), ret) == Do(old(Abs()), Call.SetTargetSize(w, h, net))
    {
      if w < IMG_MIN_SZ || h < IMG_MIN_SZ {
        return -1;
      }
      if w > IMG_MAX_SZ || h > IMG_MAX_SZ {
        return -1;
      }
      var ow, oh := targetW, targetH;
      targetW, targetH := w, h;
      if ow == w && oh == h {
        return 0;
      }
      ret := Reregister(net);
    }

    /** pp_www_session_set_embed_qr. */
    method SetEmbedQr(v: bool, net: Net) returns (ret: int)
      requires Valid()
      modifies this
      ensures Valid() && Outcome(Abs(), ret) == Do(old(Abs()), Call.SetEmbedQr(v, net))
    {
      var ov := embedQr;
      embedQr := v;
      if ov == v {
        return 0;
      }
      ret := Reregister(net);
    }
  }

  // ---------------------------------------------------------------------------------------
  // What a return value of 0 is worth
  // ---------------------------------------------------------------------------------------

  predicate Complete(net: Net) { RegisteredId(net.reply).Some? && net.qrOk && net.sizeOk }

  /** A setter that returns 0 leaves the server with the stored configuration exactly when it did
    * re-register and both pushes were acknowledged, or it did nothing and the server had it already. */
  lemma ZeroMeansInSyncIff(v: View, c: Call)
    requires Do(v, c).ret == 0
    ensures InSync(Do(v, c).view) <==> if Attempts(v, c) then c.net.qrOk && c.net.sizeOk else InSync(v)
  {
  }

  /** From any state, one complete re-registration repairs everything earlier failures left. */
  lemma CompleteAttemptSyncs(v: View, c: Call)
    requires Attempts(v, c) && Complete(c.net)
    ensures Do(v, c).ret == 0 && InSync(Do(v, c).view) && Do(v, c).view.config == Requested(v, c)
  {
  }

  lemma IncompleteAttemptUnsyncs(v: View, c: Call)
    requires InSync(v) && Attempts(v, c) && !Complete(c.net)
    ensures !InSync(Do(v, c).view)
  {
  }

  function Finally(v: View, cs: seq<Call>): View
    decreases |cs|
  {
    if cs == [] then v else Finally(Do(v, cs[0]).view, cs[1..])
  }

  predicate AllRefused(v: View, cs: seq<Call>)
    decreases |cs|
  {
    cs != [] ==>
      && (Attempts(v, cs[0]) ==> RegisteredId(cs[0].net.reply).None?)
      && AllRefused(Do(v, cs[0]).view, cs[1..])
  }

  ghost predicate AlwaysInSync(v: View, cs: seq<Call>)
    decreases |cs|
  {
    InSync(v) && (cs != [] ==> AlwaysInSync(Do(v, cs[0]).view, cs[1..]))
  }

  predicate AllAttemptsComplete(v: View, cs: seq<Call>)
    decreases |cs|
  {
    cs != [] ==>
      && (Attempts(v, cs[0]) ==> Complete(cs[0].net))
      && AllAttemptsComplete(Do(v, cs[0]).view, cs[1..])
  }

  /** Over a whole run of setters: the server agrees with the session throughout exactly when every
    * re-registration that was attempted went through completely. */
  lemma {:induction false} AlwaysInSyncIff(v: View, cs: seq<Call>)
    requires InSync(v)
    ensures AlwaysInSync(v, cs) <==> AllAttemptsComplete(v, cs)
    decreases |cs|
  {
    if cs != [] {
      var c, u := cs[0], Do(v, cs[0]).view;
      if !Attempts(v, c) {
        assert u == v;
        AlwaysInSyncIff(u, cs[1..]);
      } else if Complete(c.net) {
        CompleteAttemptSyncs(v, c);
        AlwaysInSyncIff(u, cs[1..]);
      } else {
        IncompleteAttemptUnsyncs(v, c);
      }
    }
  }

  /** A registration that succeeded: what it pushed, and how its pushes went. */
  datatype Registration = Registration(pushed: Config, net: Net)

  /** The last registration that succeeded, up to the end of the run. */
  function LastRegistration(v: View, cs: seq<Call>, before: Registration): Registration
    decreases |cs|
  {
    if cs == [] then before
    else
      var made := Attempts(v, cs[0]) && RegisteredId(cs[0].net.reply).Some?;
      LastRegistration(Do(v, cs[0]).view, cs[1..],
                       if made then Registration(Requested(v, cs[0]), cs[0].net) else before)
  }

  /** After any run of setters, whatever failed on the way, server and session agree if and only if the
    * last registration that succeeded had both its pushes acknowledged and pushed what is stored now. */
  lemma {:induction false} InSyncAfterRunIff(v: View, cs: seq<Call>, before: Registration)
    requires v.clientId in v.server && v.server[v.clientId] == Acknowledged(before.pushed, before.net)
    ensures InSync(Finally(v, cs)) <==>
      var r := LastRegistration(v, cs, before);
      r.net.qrOk && r.net.sizeOk && r.pushed == Finally(v, cs).config
    decreases |cs|
  {
    if cs != [] {
      var c := cs[0];
      var made := Attempts(v, c) && RegisteredId(c.net.reply).Some?;
      InSyncAfterRunIff(Do(v, c).view, cs[1..], if made then Registration(Requested(v, c), c.net) else before);
    }
  }

  /** The same from pp_www_session_start on. */
  lemma InSyncFromStartIff(c: Config, net: Net, cs: seq<Call>)
    requires RegisteredId(net.reply).Some?
    ensures var v := Reregistered(View(c, "", map[], 0), net).view;
      var r := LastRegistration(v, cs, Registration(c, net));
      InSync(Finally(v, cs)) <==> r.net.qrOk && r.net.sizeOk && r.pushed == Finally(v, cs).config
  {
    InSyncAfterRunIff(Reregistered(View(c, "", map[], 0), net).view, cs, Registration(c, net));
  }

  /** pp_www_session_start from a fresh session: in sync exactly when the registration completed. */
  lemma StartSyncsIff(c: Config, net: Net)
    ensures InSync(Reregistered(View(c, "", map[], 0), net).view) <==> Complete(net)
  {
  }

  /** 0 is not enough: after a failed re-registration the retry finds the value already stored,
    * returns 0 over a working network, and the server still has the old configuration. */
  lemma RetryIsNoOp(v: View, c: Call, retry: Net)
    requires InSync(v) && Attempts(v, c) && RegisteredId(c.net.reply).None?
    ensures var failed := Do(v, c);
      && failed.ret == -1
      && Do(failed.view, c.(net := retry)) == Outcome(failed.view, 0)
      && !InSync(failed.view)
      && failed.view.server == v.server && failed.view.clientId == v.clientId
  {
  }

  /** A new id never becomes visible without an invalidation in the same call, nor the reverse. */
  lemma {:induction false} InstallsAreInvalidations(v: View, cs: seq<Call>)
    ensures AllRefused(v, cs) <==> Finally(v, cs).invalidations == v.invalidations
    ensures v.invalidations <= Finally(v, cs).invalidations
    ensures AllRefused(v, cs) ==> Finally(v, cs).clientId == v.clientId && Finally(v, cs).server == v.server
    decreases |cs|
  {
    if cs != [] {
      InstallsAreInvalidations(Do(v, cs[0]).view, cs[1..]);
    }
  }
}
