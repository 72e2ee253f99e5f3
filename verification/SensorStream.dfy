/** What the rest of the occupancy service sees of the sensor's byte stream: recovery from noise
  * (transport.c), report and calibration decoding with the vacancy counter (ld2410s_uart.c), the
  * calibration gate (ld2410s.c), and the frames the service itself sends.
  */
module SensorStream {
  import opened Basics
  import opened Frames

  // ---------------------------------------------------------------------------------------
  // Self-stabilisation
  // ---------------------------------------------------------------------------------------

  /** A report frame none of whose middle bytes is the report terminator. The sensor's states are
    * 0 to 3. */
  predicate PlainReport(f: Frame) {
    f.Report? && f.state != 0x62 && f.distance % 256 != 0x62 && f.distance / 256 % 256 != 0x62
  }

  /** The first i bytes of a plain report complete nothing, whatever precedes them. */
  lemma PartialReportQuiet(p: seq<byte>, f: Frame, i: nat)
    requires PlainReport(f) && 0 < i < 5
    ensures KindOf(p + Encode(f)[..i]).NoFrame?
  {
    var r := Encode(f);
    var b := p + r[..i];
    var n := |b|;
    assert b[n - 1] == r[i - 1];
    assert b[n - i] == 0x6E;
  }

  /** The last i bytes of a report, on their own, complete nothing either. */
  lemma ReportTailQuiet(f: Frame, i: nat, j: nat)
    requires PlainReport(f) && 1 <= i <= j <= 5
    ensures KindOf(Encode(f)[i..j]).NoFrame?
  {
    var b := Encode(f)[i..j];
    if |b| == 4 {
      assert b[3] == Encode(f)[4] == 0x62;
    }
  }

  /** A report arriving while the buffer has room for it is delivered verbatim, whatever the buffer
    * holds. */
  lemma {:induction false} RoomyReport(p: seq<byte>, f: Frame, i: nat)
    requires PlainReport(f) && i < 5 && |p| + 4 < BUF_SIZE
    ensures FeedAll(p + Encode(f)[..i], Encode(f)[i..]) == Output([], [OnReport(Encode(f))])
    decreases 5 - i
  {
    var r := Encode(f);
    assert r[i..][1..] == r[i + 1..];
    assert (p + r[..i]) + [r[i]] == p + r[..i + 1];
    if i == 4 {
      var b := p + r[..5];
      assert b[|b| - 5] == 0x6E && b[|b| - 1] == 0x62;
      assert b[|b| - 5..] == r;
      FeedLast(p + r[..4], r[4..]);
    } else {
      PartialReportQuiet(p, f, i + 1);
      RoomyReport(p, f, i + 1);
    }
  }

  /** What is left of a report after the buffer was cleared inside it just sits in the buffer. */
  lemma {:induction false} TailKept(f: Frame, i: nat, j: nat)
    requires PlainReport(f) && 1 <= i <= j <= 5
    ensures FeedAll(Encode(f)[i..j], Encode(f)[j..]) == Output(Encode(f)[i..], [])
    decreases 5 - j
  {
    var r := Encode(f);
    if j < 5 {
      assert r[j..][1..] == r[j + 1..];
      assert r[i..j] + [r[j]] == r[i..j + 1];
      ReportTailQuiet(f, i, j + 1);
      TailKept(f, i, j + 1);
    } else {
      assert r[i..5] == r[i..];
    }
  }

  /** A report arriving at an almost full buffer is lost to the overflow; its tail stays behind. */
  lemma {:induction false} CrowdedReport(p: seq<byte>, f: Frame, i: nat)
    requires PlainReport(f) && i < 5 && |p| < BUF_SIZE <= |p| + 4 && |p| + i < BUF_SIZE
    ensures FeedAll(p + Encode(f)[..i], Encode(f)[i..]) == Output(Encode(f)[BUF_SIZE - |p|..], [])
    decreases 5 - i
  {
    var r := Encode(f);
    assert r[i..][1..] == r[i + 1..];
    assert (p + r[..i]) + [r[i]] == p + r[..i + 1];
    PartialReportQuiet(p, f, i + 1);
    if |p| + i + 1 < BUF_SIZE {
      CrowdedReport(p, f, i + 1);
    } else {
      TailKept(f, i + 1, i + 1);
      assert r[i + 1..i + 1] == [];
    }
  }

  lemma FirstReport(p: seq<byte>, f: Frame)
    requires PlainReport(f) && |p| < BUF_SIZE
    ensures FeedAll(p, Encode(f)) ==
      if |p| + 4 < BUF_SIZE then Output([], [OnReport(Encode(f))])
      else Output(Encode(f)[BUF_SIZE - |p|..], [])
  {
    assert p + Encode(f)[..0] == p && Encode(f)[0..] == Encode(f);
    if |p| + 4 < BUF_SIZE { RoomyReport(p, f, 0); } else { CrowdedReport(p, f, 0); }
  }

  /** From any buffer contents: of two consecutive plain reports the second is delivered verbatim
    * and leaves the buffer empty; the first is delivered too unless it met the overflow. */
  lemma SelfStabilisation(p: seq<byte>, f: Frame, g: Frame)
    requires PlainReport(f) && PlainReport(g) && |p| < BUF_SIZE
    ensures FeedAll(p, Encode(f) + Encode(g)) ==
      Output([], (if |p| + 4 < BUF_SIZE then [Meaning(f)] else []) + [Meaning(g)])
  {
    FirstReport(p, f);
    var after := FeedAll(p, Encode(f));
    FirstReport(after.buf, g);
    FeedAllConcat(p, Encode(f), Encode(g));
  }

  // ---------------------------------------------------------------------------------------
  // Responses and calibration frames after noise
  // ---------------------------------------------------------------------------------------

  /** A response or calibration frame with a clean body. */
  predicate CleanFrame(f: Frame) { !f.Report? && CleanBody(Body(f), Header(f)) }

  /** What matters of its bytes e: it starts with the header h, holds no other, and is recognised at its
    * last byte and not before. */
  ghost predicate WholeFrame(e: seq<byte>, h: seq<byte>) {
    && 8 <= |e| && |h| == 4 && Quiet(e, 0) && LastMatch(e, |e| - 4, h) == Some(0)
    && ((KindOf(e) == ResponseFrame && h == CMD_HEADER) || (KindOf(e) == CalibrationFrame && h == CAL_HEADER))
  }

  lemma CleanIsWhole(f: Frame)
    requires CleanFrame(f)
    ensures WholeFrame(Encode(f), Header(f))
  {
    NothingEarly(f);
    EndsWithFooter(f);
    HeaderIsLast(f);
    EncodeAt(f, 0);
  }

  /** No header byte ends a frame, whatever precedes it. */
  lemma HeaderByteQuiet(b: seq<byte>, m: nat)
    requires 0 < m <= |b| && (b[m - 1] in CMD_HEADER || b[m - 1] in CAL_HEADER)
    ensures QuietAt(b, m)
  {
    PrefixKind(b, m);
  }

  /** Past the first four bytes only the frame's own bytes matter. */
  lemma LaterByteQuiet(p: seq<byte>, e: seq<byte>, n: nat)
    requires 5 <= n <= |e|
    ensures QuietAt(p + e, |p| + n) <==> QuietAt(e, n)
  {
    assert (p + e)[..|p| + n] == p + e[..n];
    SameEnd(p, e[..n]);
  }

  lemma NoiseThenQuiet(p: seq<byte>, e: seq<byte>, h: seq<byte>)
    requires WholeFrame(e, h)
    ensures Quiet(p + e, |p|)
  {
    assert Match4(e, 0, h);
    forall m: nat | |p| < m < |p + e|
      ensures QuietAt(p + e, m)
    {
      var n := m - |p|;
      if n <= 4 {
        assert (p + e)[m - 1] == e[n - 1] == h[n - 1];
        HeaderByteQuiet(p + e, m);
      } else {
        assert QuietAt(e, n);
        LaterByteQuiet(p, e, n);
      }
    }
  }

  lemma LastMatchShifts(p: seq<byte>, e: seq<byte>, limit: nat, h: seq<byte>)
    requires limit <= |e| && |h| == 4 && LastMatch(e, limit, h) == Some(0)
    ensures LastMatch(p + e, |p| + limit, h) == Some(|p|)
  {
    var b := p + e;
    assert Match4(e, 0, h) && Match4(b, |p|, h);
    var r := LastMatch(b, |p| + limit, h);
    if r.Some? && |p| < r.value {
      assert Match4(e, r.value - |p|, h);
    }
  }

  lemma SameEnd(p: seq<byte>, e: seq<byte>)
    requires 5 <= |e|
    ensures KindOf(p + e) == KindOf(e)
  {
    var b, n, m := p + e, |p| + |e|, |e|;
    assert b[n - 1] == e[m - 1] && b[n - 2] == e[m - 2] && b[n - 3] == e[m - 3];
    assert b[n - 4] == e[m - 4] && b[n - 5] == e[m - 5];
  }

  lemma SameFrame(p: seq<byte>, e: seq<byte>, h: seq<byte>)
    requires 4 <= |e| && |h| == 4 && LastMatch(e, |e| - 4, h) == Some(0)
    ensures FrameAfter(p + e, h) == FrameAfter(e, h)
  {
    LastMatchShifts(p, e, |e| - 4, h);
    assert (p + e)[|p|..] == e && e[0..] == e;
  }

  lemma SameCalls(b: seq<byte>, e: seq<byte>, h: seq<byte>)
    requires 4 <= |b| && 4 <= |e| && |h| == 4 && KindOf(b) == KindOf(e) && FrameAfter(b, h) == FrameAfter(e, h)
    requires (KindOf(e) == ResponseFrame && h == CMD_HEADER) || (KindOf(e) == CalibrationFrame && h == CAL_HEADER)
    ensures CallsOf(b) == CallsOf(e)
  {
  }

  lemma NoisyFrameMeans(p: seq<byte>, e: seq<byte>, h: seq<byte>)
    requires WholeFrame(e, h)
    ensures !KindOf(p + e).NoFrame? && CallsOf(p + e) == CallsOf(e)
  {
    SameEnd(p, e);
    SameFrame(p, e, h);
    SameCalls(p + e, e, h);
  }

  /** The rest of a clean frame, fed to an empty buffer, yields nothing. */
  lemma RestOfFrame(e: seq<byte>, h: seq<byte>, k: nat)
    requires WholeFrame(e, h) && 0 < k < |e| <= BUF_SIZE
    ensures FeedAll([], e[k..]) == Output(if k + 4 <= |e| then [] else e[k..], [])
  {
    var g := e[k..];
    RestQuiet(e, k);
    assert g[..0] == [] && g[0..] == g;
    if k + 4 <= |e| {
      RestOrphaned(e, h, k);
      FeedRest(g, 0);
    } else {
      PrefixKind(g, |g|);
      FeedQuiet(g, 0);
    }
  }

  lemma RestQuiet(e: seq<byte>, k: nat)
    requires Quiet(e, 0) && k < |e|
    ensures Quiet(e[k..], 0)
  {
    forall m: nat | 0 < m < |e[k..]|
      ensures QuietAt(e[k..], m)
    {
      assert QuietAt(e, k + m);
      SuffixQuiet(e, k, m);
    }
  }

  lemma SuffixQuiet(e: seq<byte>, k: nat, m: nat)
    requires k + m <= |e| && QuietAt(e, k + m)
    ensures QuietAt(e[k..], m)
  {
    var g := e[k..][..m];
    assert e[..k + m] == e[..k] + g;
    if 5 <= m {
      SameEnd(e[..k], g);
    } else if m == 4 {
      SameTerminator(e[..k], g);
    }
  }

  lemma SameTerminator(p: seq<byte>, e: seq<byte>)
    requires |e| == 4
    ensures !KindOf(e).NoFrame? ==> !KindOf(p + e).NoFrame?
    ensures KindOf(p + e) == ResponseFrame || KindOf(p + e) == CalibrationFrame ==> KindOf(e) == KindOf(p + e)
  {
    var b, n := p + e, |p| + 4;
    assert b[n - 1] == e[3] && b[n - 2] == e[2] && b[n - 3] == e[1] && b[n - 4] == e[0];
  }

  lemma NoSecondHeader(e: seq<byte>, h: seq<byte>, k: nat)
    requires WholeFrame(e, h) && 0 < k && k + 4 <= |e|
    ensures LastMatch(e[k..], |e| - k - 4, h) == None
  {
    var g := e[k..];
    var r := LastMatch(g, |g| - 4, h);
    if r.Some? {
      assert Match4(g, r.value, h);
      assert Match4(e, k + r.value, h);
    }
  }

  /** A terminator whose header has been lost is recognised, and calls nothing. */
  lemma RestOrphaned(e: seq<byte>, h: seq<byte>, k: nat)
    requires WholeFrame(e, h) && 0 < k && k + 4 <= |e|
    ensures !KindOf(e[k..]).NoFrame? && CallsOf(e[k..]) == []
  {
    var g := e[k..];
    assert e == e[..k] + g;
    if |g| == 4 { SameTerminator(e[..k], g); } else { SameEnd(e[..k], g); }
    NoSecondHeader(e, h, k);
    assert FrameAfter(g, h) == None;
  }

  lemma {:induction false} FeedQuiet(e: seq<byte>, n: nat)
    requires n <= |e| < BUF_SIZE && Quiet(e, n) && (n < |e| ==> QuietAt(e, |e|))
    ensures FeedAll(e[..n], e[n..]) == Output(e, [])
    decreases |e| - n
  {
    if n < |e| {
      assert QuietAt(e, n + 1);
      FeedFirst(e, n);
      QuietByte(e, n);
      FeedQuiet(e, n + 1);
    }
  }

  /** From any buffer: a clean frame that fits behind it is delivered exactly and leaves the buffer empty;
    * one that does not is lost to the overflow and leaves at most the last three bytes of its terminator. */
  lemma FrameAfterNoise(p: seq<byte>, f: Frame)
    requires f.Valid() && CleanFrame(f) && |p| < BUF_SIZE && |Encode(f)| <= BUF_SIZE
    ensures var e, k := Encode(f), BUF_SIZE - |p|;
      FeedAll(p, e) ==
        if |e| <= k then Output([], [Meaning(f)])
        else Output(if k + 4 <= |e| then [] else e[k..], [])
  {
    var e, k := Encode(f), BUF_SIZE - |p|;
    CleanIsWhole(f);
    if |e| <= k {
      WholeFrameMeans(f);
      NoisyFrameFed(p, e, Header(f));
    } else {
      NoisyFrameLost(p, e, Header(f));
    }
  }

  lemma NoisyFrameFed(p: seq<byte>, e: seq<byte>, h: seq<byte>)
    requires WholeFrame(e, h) && |p| + |e| <= BUF_SIZE
    ensures FeedAll(p, e) == Output([], CallsOf(e))
  {
    var b := p + e;
    assert b[..|p|] == p && b[|p|..] == e;
    NoiseThenQuiet(p, e, h);
    NoisyFrameMeans(p, e, h);
    FeedRest(b, |p|);
  }

  lemma NoisyFrameLost(p: seq<byte>, e: seq<byte>, h: seq<byte>)
    requires WholeFrame(e, h) && |p| < BUF_SIZE < |p| + |e| && |e| <= BUF_SIZE
    ensures var k := BUF_SIZE - |p|;
      FeedAll(p, e) == Output(if k + 4 <= |e| then [] else e[k..], [])
  {
    var b, k := p + e, BUF_SIZE - |p|;
    assert b[..|p|] == p && b[|p|..] == e && b[BUF_SIZE..] == e[k..];
    NoiseThenQuiet(p, e, h);
    OverflowClears(b, |p|);
    RestOfFrame(e, h, k);
  }

  /** Quiet bytes up to a full buffer vanish. */
  lemma {:induction false} OverflowClears(e: seq<byte>, n: nat)
    requires n < BUF_SIZE < |e| && Quiet(e, n)
    ensures FeedAll(e[..n], e[n..]) == FeedAll([], e[BUF_SIZE..])
    decreases BUF_SIZE - n
  {
    assert QuietAt(e, n + 1);
    if n + 1 < BUF_SIZE {
      QuietStep(e, n);
      OverflowClears(e, n + 1);
    } else {
      FeedFirst(e, n);
      RecognisedByte(e, n);
      var rest := FeedAll([], e[BUF_SIZE..]);
      assert [] + rest.calls == rest.calls;
    }
  }

  /** So of two consecutive clean frames the second, if it leaves three bytes of room, is always
    * delivered exactly, and the buffer ends empty. */
  lemma FrameStabilisation(p: seq<byte>, f: Frame, g: Frame)
    requires f.Valid() && CleanFrame(f) && |Encode(f)| <= BUF_SIZE && |p| < BUF_SIZE
    requires g.Valid() && CleanFrame(g) && |Encode(g)| + 3 <= BUF_SIZE
    ensures FeedAll(p, Encode(f) + Encode(g)) ==
      Output([], (if |p| + |Encode(f)| <= BUF_SIZE then [Meaning(f)] else []) + [Meaning(g)])
  {
    FrameAfterNoise(p, f);
    var after := FeedAll(p, Encode(f));
    FrameAfterNoise(after.buf, g);
    FeedAllConcat(p, Encode(f), Encode(g));
  }

  // ---------------------------------------------------------------------------------------
  // Decoding
  // ---------------------------------------------------------------------------------------

  /** struct LD2410S_report. */
  datatype Reading = Reading(occupied: bool, distance: nat)

  /** decode_report's view of a frame. */
  function DecodeReport(frame: seq<byte>): (r: Option<Reading>)
  {
    if |frame| < 5 then None
    else Some(Reading(!(frame[1] == 0 || frame[1] == 1), ReadU16(frame, 2)))
  }

  /** decode_calibration's progress percentage. */
  function DecodeCalibration(frame: seq<byte>): Option<nat> {
    if |frame| < 13 then None else Some(ReadU16(frame, 7))
  }

  lemma ReportDecodes(f: Frame)
    requires f.Report? && f.Valid()
    ensures DecodeReport(Encode(f)) == Some(Reading(2 <= f.state, f.distance))
  {
    ReadWriteU16(f.distance);
    assert Encode(f)[2..4] == WriteU16(f.distance);
  }

  lemma CalibrationDecodes(f: Frame)
    requires f.Calibration?
    ensures DecodeCalibration(Encode(f)) ==
      if 3 <= |f.payload| then Some(ReadU16(f.payload, 1)) else None
  {
    if 3 <= |f.payload| {
      EncodeAt(f, 7);
      EncodeAt(f, 8);
    }
  }

  /** ld2410s_uart.c's consumer of the three callbacks; last_vacancy_count is a size_t. */
  class Decoder {
    const word: nat
    var vacancies: nat
    var reports: seq<Reading>
    var progress: seq<nat>

    ghost predicate Valid()
      reads this
    {
      0 < word && vacancies == VacantSuffix(reports) % word
    }

    constructor (word: nat)
      requires 0 < word
      ensures Valid() && reports == [] && progress == [] && this.word == word
    {
      this.word := word;
      vacancies, reports, progress := 0, [], [];
    }

    method OnReportFrame(frame: seq<byte>)
      requires Valid()
      modifies this`vacancies, this`reports
      ensures Valid()
      ensures reports == old(reports) + AsSeq(DecodeReport(frame))
    {
      if |frame| < 5 {
        return;
      }
      var state := frame[1];
      var report := Reading(!(state == 0 || state == 1), ReadU16(frame, 2));
      VacantSuffixStep(reports, report, word);
      reports := reports + [report];
      if report.occupied {
        vacancies := 0;
      } else {
        vacancies := Bump(vacancies, word);
      }
    }

    method OnCalibrationFrame(frame: seq<byte>)
      modifies this`progress
      ensures progress == old(progress) + AsSeq(DecodeCalibration(frame))
    {
      if |frame| < 4 + 2 + 3 + 4 {
        return;
      }
      progress := progress + [ReadU16(frame, 7)];
    }

    /** The callbacks in the order the transport makes them. */
    method Deliver(calls: seq<Call>)
      requires Valid()
      modifies this`vacancies, this`reports, this`progress
      ensures Valid()
      ensures reports == old(reports) + ReportsFrom(calls)
      ensures progress == old(progress) + ProgressFrom(calls)
    {
      ghost var rs, ps := reports, progress;
      for i := 0 to |calls|
        invariant Valid()
        invariant reports + ReportsFrom(calls[i..]) == rs + ReportsFrom(calls)
        invariant progress + ProgressFrom(calls[i..]) == ps + ProgressFrom(calls)
      {
        FromNext(calls, i, reports, progress);
        DeliverOne(calls[i]);
      }
      assert calls[|calls|..] == [];
      assert reports + [] == reports && progress + [] == progress;
    }

    method DeliverOne(c: Call)
      requires Valid()
      modifies this`vacancies, this`reports, this`progress
      ensures Valid()
      ensures reports == old(reports) + ReportFrom(c) && progress == old(progress) + ProgressFromOne(c)
    {
      match c {
        case OnReport(frame) => OnReportFrame(frame);
        case OnCalibration(frame) => OnCalibrationFrame(frame);
        case OnResponse(_, _, _) =>
      }
    }

    /** ld2410s_start_calibration with a UART: None is the refusal, Some the command data sent. */
    method StartCalibration(trigger: nat, retention: nat, duration: nat) returns (r: Option<seq<byte>>)
      requires Valid()
      ensures r.Some? <==> 30 <= VacantSuffix(reports) % word
      ensures r.Some? ==> r.value == WriteU16(trigger) + WriteU16(retention) + WriteU16(duration)
    {
      if vacancies >= ROOM_EMPTY {
        r := Some(WriteU16(trigger) + WriteU16(retention) + WriteU16(duration));
      } else {
        r := None;
      }
    }
  }

  const ROOM_EMPTY: nat := 30

  /** How many of the latest reports in a row were vacant. */
  function VacantSuffix(reports: seq<Reading>): (n: nat)
    ensures n <= |reports|
    ensures forall i :: |reports| - n <= i < |reports| ==> !reports[i].occupied
    ensures n < |reports| ==> reports[|reports| - 1 - n].occupied
  {
    if reports == [] || reports[|reports| - 1].occupied then 0
    else 1 + VacantSuffix(reports[..|reports| - 1])
  }

  /** size_t increment. */
  function Bump(n: nat, word: nat): nat { if n + 1 == word then 0 else n + 1 }

  lemma VacantSuffixStep(reports: seq<Reading>, r: Reading, word: nat)
    requires 0 < word
    ensures VacantSuffix(reports + [r]) == if r.occupied then 0 else VacantSuffix(reports) + 1
    ensures VacantSuffix(reports + [r]) % word == if r.occupied then 0 else Bump(VacantSuffix(reports) % word, word)
  {
    assert (reports + [r])[..|reports|] == reports;
    ResidueNext(VacantSuffix(reports), word);
  }

  lemma ResidueNext(n: nat, word: nat)
    requires 0 < word
    ensures (n + 1) % word == Bump(n % word, word) && 0 % word == 0
  {
    ModSucc(n, word);
    ModSmall(0, word);
    if n % word + 1 < word {
      ModSmall(n % word + 1, word);
    } else {
      ModAddModulus(0, word);
    }
  }

  // ---------------------------------------------------------------------------------------
  // From frames on the wire to the calibration gate
  // ---------------------------------------------------------------------------------------

  function ReportIn(f: Frame): seq<Reading> { if f.Report? then [Reading(2 <= f.state, f.distance)] else [] }

  function ProgressOf(f: Frame): seq<nat> {
    if f.Calibration? && 3 <= |f.payload| then [ReadU16(f.payload, 1)] else []
  }

  /** The reports the sensor sent. */
  function ReportsIn(fs: seq<Frame>): seq<Reading> {
    if fs == [] then [] else ReportIn(fs[0]) + ReportsIn(fs[1..])
  }

  /** The calibration progress it sent. */
  function ProgressIn(fs: seq<Frame>): seq<nat> {
    if fs == [] then [] else ProgressOf(fs[0]) + ProgressIn(fs[1..])
  }

  function ReportFrom(c: Call): seq<Reading> { if c.OnReport? then AsSeq(DecodeReport(c.frame)) else [] }

  function ProgressFromOne(c: Call): seq<nat> { if c.OnCalibration? then AsSeq(DecodeCalibration(c.frame)) else [] }

  /** What the callbacks in order leave in `reports` ... */
  function ReportsFrom(calls: seq<Call>): seq<Reading> {
    if calls == [] then [] else ReportFrom(calls[0]) + ReportsFrom(calls[1..])
  }

  /** ... and in `progress`. */
  function ProgressFrom(calls: seq<Call>): seq<nat> {
    if calls == [] then [] else ProgressFromOne(calls[0]) + ProgressFrom(calls[1..])
  }

  lemma FromNext(calls: seq<Call>, i: nat, rs: seq<Reading>, ps: seq<nat>)
    requires i < |calls|
    ensures rs + ReportsFrom(calls[i..]) == rs + ReportFrom(calls[i]) + ReportsFrom(calls[i + 1..])
    ensures ps + ProgressFrom(calls[i..]) == ps + ProgressFromOne(calls[i]) + ProgressFrom(calls[i + 1..])
  {
    assert calls[i..][1..] == calls[i + 1..];
  }

  lemma MeaningDecodes(f: Frame)
    requires f.Valid()
    ensures ReportFrom(Meaning(f)) == ReportIn(f) && ProgressFromOne(Meaning(f)) == ProgressOf(f)
  {
    match f {
      case Report(_, _) => ReportDecodes(f);
      case Response(_, _, _) =>
      case Calibration(_) => CalibrationDecodes(f);
    }
  }

  lemma {:induction false} MeaningsDecode(fs: seq<Frame>)
    requires forall i :: 0 <= i < |fs| ==> fs[i].Valid()
    ensures ReportsFrom(Meanings(fs)) == ReportsIn(fs) && ProgressFrom(Meanings(fs)) == ProgressIn(fs)
  {
    if fs != [] {
      MeaningDecodes(fs[0]);
      MeaningsDecode(fs[1..]);
      assert Meanings(fs)[1..] == Meanings(fs[1..]);
    }
  }

  /** The callbacks any stream of transmissible frames causes decode to exactly the reports and the
    * calibration progress the sensor sent. */
  lemma StreamReports(fs: seq<Frame>)
    requires forall i :: 0 <= i < |fs| ==> fs[i].Valid() && Transmissible(fs[i])
    ensures ReportsFrom(FeedAll([], EncodeAll(fs)).calls) == ReportsIn(fs)
    ensures ProgressFrom(FeedAll([], EncodeAll(fs)).calls) == ProgressIn(fs)
  {
    StreamRoundTrip(fs);
    MeaningsDecode(fs);
  }

  /** End to end, from the bytes on the line to the service's state: after any stream of transmissible
    * frames the reports and the progress are those sent, the buffer is empty, and the vacancy counter is
    * the length of the vacant suffix of the reports sent, modulo the word. */
  method ReceiveStream(fs: seq<Frame>, word: nat) returns (d: Decoder)
    requires 0 < word
    requires forall i :: 0 <= i < |fs| ==> fs[i].Valid() && Transmissible(fs[i])
    ensures fresh(d) && d.Valid() && d.word == word
    ensures d.reports == ReportsIn(fs) && d.progress == ProgressIn(fs)
    ensures d.vacancies == VacantSuffix(ReportsIn(fs)) % word
  {
    var reader := new Reader();
    reader.Receive(EncodeAll(fs));
    d := new Decoder(word);
    d.Deliver(reader.calls);
    StreamReports(fs);
    assert reader.calls == FeedAll([], EncodeAll(fs)).calls;
  }

  /** Calibration never starts unless the last thirty reports all said vacant, even after the
    * counter wraps; and until it wraps it starts whenever they did. */
  lemma GateNeedsEmptyRoom(reports: seq<Reading>, word: nat)
    requires ROOM_EMPTY < word
    ensures ROOM_EMPTY <= VacantSuffix(reports) % word ==> LastAllVacant(reports, ROOM_EMPTY)
    ensures LastAllVacant(reports, ROOM_EMPTY) && |reports| < word ==> ROOM_EMPTY <= VacantSuffix(reports) % word
  {
    var n := VacantSuffix(reports);
    if n < word {
      ModSmall(n, word);
    }
    if n < ROOM_EMPTY <= |reports| {
      assert reports[|reports| - 1 - n].occupied;
    }
  }

  predicate LastAllVacant(reports: seq<Reading>, k: nat) {
    k <= |reports| && forall i :: |reports| - k <= i < |reports| ==> !reports[i].occupied
  }

  // ---------------------------------------------------------------------------------------
  // Sending
  // ---------------------------------------------------------------------------------------

  /** The frame send_cmd writes. */
  function Command(word: nat, data: seq<byte>): seq<byte> {
    CMD_HEADER + WriteU16(2 + |data|) + WriteU16(word) + data + CMD_FOOTER
  }

  /** send_cmd: fills the frame by position; None when the payload is too large. */
  method SendCmd(word: nat, data: seq<byte>) returns (r: Option<seq<byte>>)
    ensures r == if 2 + |data| <= MAX_DATA then Some(Command(word, data)) else None
  {
    var payloadLen := 2 + |data|;
    if payloadLen > MAX_DATA {
      return None;
    }
    var frame := new byte[4 + 2 + 2 + MAX_DATA + 4](_ => 0);
    assert frame[..0] == [];
    var pos := Fill(frame, 0, CMD_HEADER);
    pos := Fill(frame, pos, WriteU16(payloadLen));
    pos := Fill(frame, pos, WriteU16(word));
    pos := Fill(frame, pos, data);
    pos := Fill(frame, pos, CMD_FOOTER);
    assert frame[..pos] == Command(word, data);
    r := Some(frame[..pos]);
  }

  /** memcpy at a position, advancing it. */
  method Fill(frame: array<byte>, pos: nat, src: seq<byte>) returns (next: nat)
    requires pos + |src| <= frame.Length
    modifies frame
    ensures next == pos + |src|
    ensures frame[..next] == old(frame[..pos]) + src
  {
    var i := 0;
    while i < |src|
      invariant i <= |src|
      invariant frame[..pos + i] == old(frame[..pos]) + src[..i]
    {
      frame[pos + i] := src[i];
      i := i + 1;
      assert frame[..pos + i] == frame[..pos + i - 1] + [src[i - 1]];
    }
    next := pos + |src|;
  }

  /** Commands and responses share one frame format: a command frame is the response frame whose
    * status field is the first two data bytes. */
  lemma CommandIsResponseShaped(word: nat, status: nat, data: seq<byte>)
    ensures Command(word, WriteU16(status) + data) == Encode(Response(word, status, data))
  {
  }
}
