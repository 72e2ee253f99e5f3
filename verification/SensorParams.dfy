/** Sensor parameters in occupancy-sensor-ld2410s/ld2410s_uart/ld2410s_uart.c: the table of names the
  * setter uses, the word lists the getters use, and the codecs on both sides. The sensor itself is
  * modelled as a store of 32-bit values, one for each write command and parameter word, that answers
  * a read with the values of the words the request's payload asks for, in order.
  */
module SensorParams {
  import opened Basics
  import opened Frames

  const CMD_WRITE_COMMON: nat := 0x0070
  const CMD_READ_COMMON: nat := 0x0071
  const CMD_WRITE_THRESHOLD: nat := 0x0072
  const CMD_READ_THRESHOLD: nat := 0x0073
  const CMD_WRITE_SNR: nat := 0x0074
  const CMD_READ_SNR: nat := 0x0075

  /** struct param_entry. */
  datatype Entry = Entry(name: string, cmd: nat, word: nat)

  const TABLE_SIZE: nat := 38

  /** PARAM_TABLE, by row. */
  function Row(i: nat): Entry
    requires i < TABLE_SIZE
  {
    match i
    case 0 => Entry("farthest_gate", CMD_WRITE_COMMON, 0x05)
    case 1 => Entry("nearest_gate", CMD_WRITE_COMMON, 0x0A)
    case 2 => Entry("unmanned_delay", CMD_WRITE_COMMON, 0x06)
    case 3 => Entry("status_report_freq", CMD_WRITE_COMMON, 0x02)
    case 4 => Entry("dist_report_freq", CMD_WRITE_COMMON, 0x0C)
    case 5 => Entry("response_speed", CMD_WRITE_COMMON, 0x0B)
    case 6 => Entry("gate_0_trigger", CMD_WRITE_THRESHOLD, 0x00)
    case 7 => Entry("gate_0_holding", CMD_WRITE_THRESHOLD, 0x08)
    case 8 => Entry("gate_1_trigger", CMD_WRITE_THRESHOLD, 0x01)
    case 9 => Entry("gate_1_holding", CMD_WRITE_THRESHOLD, 0x09)
    case 10 => Entry("gate_2_trigger", CMD_WRITE_THRESHOLD, 0x02)
    case 11 => Entry("gate_2_holding", CMD_WRITE_THRESHOLD, 0x0A)
    case 12 => Entry("gate_3_trigger", CMD_WRITE_THRESHOLD, 0x03)
    case 13 => Entry("gate_3_holding", CMD_WRITE_THRESHOLD, 0x0B)
    case 14 => Entry("gate_4_trigger", CMD_WRITE_THRESHOLD, 0x04)
    case 15 => Entry("gate_4_holding", CMD_WRITE_THRESHOLD, 0x0C)
    case 16 => Entry("gate_5_trigger", CMD_WRITE_THRESHOLD, 0x05)
    case 17 => Entry("gate_5_holding", CMD_WRITE_THRESHOLD, 0x0D)
    case 18 => Entry("gate_6_trigger", CMD_WRITE_THRESHOLD, 0x06)
    case 19 => Entry("gate_6_holding", CMD_WRITE_THRESHOLD, 0x0E)
    case 20 => Entry("gate_7_trigger", CMD_WRITE_THRESHOLD, 0x07)
    case 21 => Entry("gate_7_holding", CMD_WRITE_THRESHOLD, 0x0F)
    case 22 => Entry("gate_8_trigger_snr", CMD_WRITE_SNR, 0x00)
    case 23 => Entry("gate_8_hold_snr", CMD_WRITE_SNR, 0x08)
    case 24 => Entry("gate_9_trigger_snr", CMD_WRITE_SNR, 0x01)
    case 25 => Entry("gate_9_hold_snr", CMD_WRITE_SNR, 0x09)
    case 26 => Entry("gate_10_trigger_snr", CMD_WRITE_SNR, 0x02)
    case 27 => Entry("gate_10_hold_snr", CMD_WRITE_SNR, 0x0A)
    case 28 => Entry("gate_11_trigger_snr", CMD_WRITE_SNR, 0x03)
    case 29 => Entry("gate_11_hold_snr", CMD_WRITE_SNR, 0x0B)
    case 30 => Entry("gate_12_trigger_snr", CMD_WRITE_SNR, 0x04)
    case 31 => Entry("gate_12_hold_snr", CMD_WRITE_SNR, 0x0C)
    case 32 => Entry("gate_13_trigger_snr", CMD_WRITE_SNR, 0x05)
    case 33 => Entry("gate_13_hold_snr", CMD_WRITE_SNR, 0x0D)
    case 34 => Entry("gate_14_trigger_snr", CMD_WRITE_SNR, 0x06)
    case 35 => Entry("gate_14_hold_snr", CMD_WRITE_SNR, 0x0E)
    case 36 => Entry("gate_15_trigger_snr", CMD_WRITE_SNR, 0x07)
    case _ => Entry("gate_15_hold_snr", CMD_WRITE_SNR, 0x0F)
  }

  const COMMON_PARAM_WORDS: seq<nat> := [0x05, 0x0A, 0x06, 0x02, 0x0C, 0x0B]

  // ---------------------------------------------------------------------------------------
  // Codecs
  // ---------------------------------------------------------------------------------------

  function WriteU32(v: nat): (b: seq<byte>)
    ensures |b| == 4
  {
    [v % 256, v / 256 % 256, v / 65536 % 256, v / 16777216 % 256]
  }

  function ReadU32(b: seq<byte>, i: nat): (v: nat)
    requires i + 4 <= |b|
    ensures v < UINT32_MODULUS
  {
    (b[i] as int) + 256 * (b[i + 1] as int) + 65536 * (b[i + 2] as int) + 16777216 * (b[i + 3] as int)
  }

  /** The low byte comes first. */
  lemma LittleEndian32(a: byte, b: byte, c: byte, d: byte)
    ensures ReadU32([a, b, c, d], 0) == a + 256 * (b + 256 * (c + 256 * d))
    ensures WriteU32(a + 256 * (b + 256 * (c + 256 * d))) == [a, b, c, d]
  {
    var cd := c + 256 * d;
    var bcd := b + 256 * cd;
    var v := a + 256 * bcd;
    assert v % 256 == a && v / 256 == bcd && bcd % 256 == b && bcd / 256 == cd && cd % 256 == c && cd / 256 == d;
    assert v / 65536 == cd && v / 16777216 == d;
  }

  lemma ReadWriteU32(v: nat)
    requires v < UINT32_MODULUS
    ensures ReadU32(WriteU32(v), 0) == v
  {
    var a := v / 256;
    var b := a / 256;
    var c := b / 256;
    assert v == v % 256 + 256 * a && a == a % 256 + 256 * b && b == b % 256 + 256 * c;
    assert v / 65536 == b && v / 16777216 == c && c < 256;
  }

  function Words16(ws: seq<nat>): (b: seq<byte>)
    ensures |b| == 2 * |ws|
  {
    if ws == [] then [] else Words16(ws[..|ws| - 1]) + WriteU16(ws[|ws| - 1])
  }

  /** The words of a read request's payload. */
  function Asked(b: seq<byte>): (ws: seq<nat>)
    ensures |ws| == |b| / 2
  {
    seq(|b| / 2, k requires 0 <= k < |b| / 2 => ReadU16(b, 2 * k))
  }

  lemma {:induction false} Words16At(ws: seq<nat>, k: nat)
    requires k < |ws| && ws[k] < 0x1_0000
    ensures ReadU16(Words16(ws), 2 * k) == ws[k]
  {
    var n := |ws| - 1;
    if k < n {
      Words16At(ws[..n], k);
    } else {
      ReadWriteU16(ws[k]);
      assert Words16(ws)[2 * k..2 * k + 2] == WriteU16(ws[k]);
    }
  }

  lemma AskedWords(ws: seq<nat>)
    requires forall k :: 0 <= k < |ws| ==> ws[k] < 0x1_0000
    ensures Asked(Words16(ws)) == ws
  {
    forall k | 0 <= k < |ws|
      ensures Asked(Words16(ws))[k] == ws[k]
    {
      Words16At(ws, k);
    }
  }

  function Words32(vs: seq<nat>): (b: seq<byte>)
    ensures |b| == 4 * |vs|
  {
    if vs == [] then [] else Words32(vs[..|vs| - 1]) + WriteU32(vs[|vs| - 1])
  }

  lemma {:induction false} Words32At(vs: seq<nat>, k: nat)
    requires k < |vs| && vs[k] < UINT32_MODULUS
    ensures ReadU32(Words32(vs), 4 * k) == vs[k]
  {
    var n := |vs| - 1;
    if k < n {
      Words32At(vs[..n], k);
    } else {
      ReadWriteU32(vs[k]);
      assert Words32(vs)[4 * k..4 * k + 4] == WriteU32(vs[k]);
    }
  }

  // ---------------------------------------------------------------------------------------
  // Requests and getters
  // ---------------------------------------------------------------------------------------

  /** A command handed to session_cmd. */
  datatype Request = Request(cmd: nat, data: seq<byte>)

  predicate NamedAt(name: string, i: nat) { i < TABLE_SIZE && Row(i).name == name }

  predicate FirstNamed(name: string, i: nat) { NamedAt(name, i) && forall j: nat :: j < i ==> !NamedAt(name, j) }

  /** ld2410s_uart_set_param up to session_cmd; None is the "unknown param" error. */
  method SetParam(name: string, value: nat) returns (r: Option<Request>, ghost row: nat)
    requires value < UINT32_MODULUS
    ensures r.None? <==> !exists i: nat :: NamedAt(name, i)
    ensures r.Some? ==> FirstNamed(name, row) && r.value == WriteRequest(row, value)
  {
    var i := 0;
    while i < TABLE_SIZE
      invariant i <= TABLE_SIZE
      invariant forall j: nat :: j < i ==> !NamedAt(name, j)
    {
      if NamedAt(name, i) {
        return Some(WriteRequest(i, value)), i;
      }
      i := i + 1;
    }
    r, row := None, 0;
  }

  function WriteRequest(i: nat, value: nat): Request
    requires i < TABLE_SIZE
  {
    Request(Row(i).cmd, WriteU16(Row(i).word) + WriteU32(value))
  }

  /** The payload loop of the getters: whoever reads the payload word by word gets the list back. */
  method ReadPayload(ws: seq<nat>) returns (payload: seq<byte>)
    requires forall k :: 0 <= k < |ws| ==> ws[k] < 0x1_0000
    ensures payload == Words16(ws) && Asked(payload) == ws
  {
    payload := [];
    for i := 0 to |ws|
      invariant payload == Words16(ws[..i])
    {
      assert ws[..i + 1][..i] == ws[..i];
      payload := payload + WriteU16(ws[i]);
    }
    assert ws[..|ws|] == ws;
    AskedWords(ws);
  }

  const SIXTEEN: seq<nat> := [0, 1, 2, 3, 4, 5, 6, 7, 8, 9, 10, 11, 12, 13, 14, 15]

  /** The requests of the three getters. */
  function CommonRequest(): Request { Request(CMD_READ_COMMON, Words16(COMMON_PARAM_WORDS)) }

  function GateRequest(cmd: nat): Request { Request(cmd, Words16(SIXTEEN)) }

  method BuildCommonRequest() returns (q: Request)
    ensures q == CommonRequest()
  {
    var payload := ReadPayload(COMMON_PARAM_WORDS);
    q := Request(CMD_READ_COMMON, payload);
  }

  method BuildGateRequest(cmd: nat) returns (q: Request)
    ensures q == GateRequest(cmd)
  {
    var payload := ReadPayload(SIXTEEN);
    q := Request(cmd, payload);
  }

  /** struct LD2410S_threshold_params and struct LD2410S_snr_params: eight gates each. */
  datatype Gates = Gates(trigger: seq<nat>, holding: seq<nat>)

  datatype Common = Common(farthest: nat, nearest: nat, unmannedDelay: nat,
                           statusFreq: nat, distFreq: nat, speed: nat)

  /** ld2410s_uart_get_common_params after session_cmd; None is its -1. */
  function DecodeCommon(reply: Option<seq<byte>>): Option<Common> {
    if reply.None? || |reply.value| < 24 then None
    else
      var b := reply.value;
      Some(Common(ReadU32(b, 0), ReadU32(b, 4), ReadU32(b, 8), ReadU32(b, 12), ReadU32(b, 16), ReadU32(b, 20)))
  }

  /** The decoding loop of ld2410s_uart_get_threshold and ld2410s_uart_get_snr; None is their -1. */
  method DecodeGates(reply: Option<seq<byte>>) returns (r: Option<Gates>)
    ensures r.Some? <==> reply.Some? && 64 <= |reply.value|
    ensures r.Some? ==> GatesOf(reply.value) == r.value
  {
    if reply.None? || |reply.value| < 64 {
      return None;
    }
    var buf := reply.value;
    var trigger, holding := [], [];
    for i := 0 to 8
      invariant |trigger| == |holding| == i
      invariant forall k :: 0 <= k < i ==> trigger[k] == ReadU32(buf, k * 4) && holding[k] == ReadU32(buf, (k + 8) * 4)
    {
      trigger := trigger + [ReadU32(buf, i * 4)];
      holding := holding + [ReadU32(buf, (i + 8) * 4)];
    }
    r := Some(Gates(trigger, holding));
  }

  function GatesOf(b: seq<byte>): (g: Gates)
    requires 64 <= |b|
    ensures |g.trigger| == |g.holding| == 8
  {
    Gates(seq(8, k requires 0 <= k < 8 => ReadU32(b, k * 4)), seq(8, k requires 0 <= k < 8 => ReadU32(b, (k + 8) * 4)))
  }

  // ---------------------------------------------------------------------------------------
  // Setter and getters agree
  // ---------------------------------------------------------------------------------------

  /** The sensor's parameters: by write command and word. */
  type Store = (nat, nat) -> U32

  type U32 = v: nat | v < UINT32_MODULUS

  /** The sensor carries out a write request. */
  function Written(st: Store, q: Request): Store
    requires |q.data| == 6
  {
    var word, value: U32 := ReadU16(q.data, 0), ReadU32(q.data, 2);
    (c: nat, w: nat) => if c == q.cmd && w == word then value else st(c, w)
  }

  function Values(st: Store, cmd: nat, ws: seq<nat>): (vs: seq<nat>)
    ensures |vs| == |ws|
  {
    seq(|ws|, k requires 0 <= k < |ws| => st(cmd, ws[k]))
  }

  /** The write command of the family a read command reads. */
  function FamilyOf(cmd: nat): nat {
    if cmd == CMD_READ_COMMON then CMD_WRITE_COMMON
    else if cmd == CMD_READ_THRESHOLD then CMD_WRITE_THRESHOLD
    else CMD_WRITE_SNR
  }

  /** The sensor's answer to a read: the values of the words its payload asks for, in order. */
  function Reply(st: Store, q: Request): (b: seq<byte>)
    ensures |b| == 4 * (|q.data| / 2)
  {
    Words32(Values(st, FamilyOf(q.cmd), Asked(q.data)))
  }

  /** All parameters as the three getters return them, in the order of the table. */
  function Readings(st: Store): (vs: seq<nat>)
    ensures |vs| == TABLE_SIZE
  {
    CommonReadings(st) + GateReadings(st, CMD_READ_THRESHOLD) + GateReadings(st, CMD_READ_SNR)
  }

  function CommonReadings(st: Store): (vs: seq<nat>)
    ensures |vs| == 6
  {
    CommonList(DecodeCommon(Some(Reply(st, CommonRequest()))).value)
  }

  function GateReadings(st: Store, cmd: nat): (vs: seq<nat>)
    ensures |vs| == 16
  {
    Alternate(GatesOf(Reply(st, GateRequest(cmd))))
  }

  function CommonList(c: Common): (vs: seq<nat>)
    ensures |vs| == 6
  {
    [c.farthest, c.nearest, c.unmannedDelay, c.statusFreq, c.distFreq, c.speed]
  }

  /** Gate by gate: trigger, then hold. */
  function Alternate(g: Gates): (vs: seq<nat>)
    requires |g.trigger| == |g.holding| == 8
    ensures |vs| == 16
    ensures forall k :: 0 <= k < 16 ==> vs[k] == if k % 2 == 0 then g.trigger[k / 2] else g.holding[k / 2]
  {
    seq(16, k requires 0 <= k < 16 => if k % 2 == 0 then g.trigger[k / 2] else g.holding[k / 2])
  }

  /** Where the getters find place k of a family of eight gates. */
  function GatePlace(cmd: nat, k: nat): (nat, nat) { (cmd, k / 2 + if k % 2 == 0 then 0 else 8) }

  /** Which word of which family the getters report at place i of Readings. */
  function PlaceOf(i: nat): (nat, nat)
    requires i < TABLE_SIZE
  {
    if i < 6 then (CMD_WRITE_COMMON, COMMON_PARAM_WORDS[i])
    else if i < 22 then GatePlace(CMD_WRITE_THRESHOLD, i - 6)
    else GatePlace(CMD_WRITE_SNR, i - 22)
  }

  function At(st: Store, place: (nat, nat)): U32 { st(place.0, place.1) }

  lemma CommonReadingAt(st: Store, i: nat)
    requires i < 6
    ensures CommonReadings(st)[i] == st(CMD_WRITE_COMMON, COMMON_PARAM_WORDS[i])
  {
    AskedWords(COMMON_PARAM_WORDS);
    Words32At(Values(st, CMD_WRITE_COMMON, COMMON_PARAM_WORDS), i);
  }

  lemma GateReadingAt(st: Store, cmd: nat, k: nat)
    requires k < 16
    ensures GateReadings(st, cmd)[k] == At(st, GatePlace(FamilyOf(cmd), k))
  {
    var w := GatePlace(FamilyOf(cmd), k).1;
    assert SIXTEEN[w] == w;
    AskedWords(SIXTEEN);
    Words32At(Values(st, FamilyOf(cmd), SIXTEEN), w);
  }

  lemma ReadingAt(st: Store, i: nat)
    requires i < TABLE_SIZE
    ensures Readings(st)[i] == At(st, PlaceOf(i))
  {
    if i < 6 {
      CommonReadingAt(st, i);
    } else if i < 22 {
      GateReadingAt(st, CMD_READ_THRESHOLD, i - 6);
    } else {
      GateReadingAt(st, CMD_READ_SNR, i - 22);
    }
    ReadingsSplit(st, i);
  }

  lemma ReadingsSplit(st: Store, i: nat)
    requires i < TABLE_SIZE
    ensures Readings(st)[i] ==
      if i < 6 then CommonReadings(st)[i]
      else if i < 22 then GateReadings(st, CMD_READ_THRESHOLD)[i - 6]
      else GateReadings(st, CMD_READ_SNR)[i - 22]
  {
  }

  lemma CommonRowsMatch(i: nat)
    requires i < 6
    ensures PlaceOf(i) == (Row(i).cmd, Row(i).word)
  {
  }

  lemma ThresholdRowsMatch(i: nat)
    requires 6 <= i < 22
    ensures PlaceOf(i) == (Row(i).cmd, Row(i).word)
  {
  }

  lemma SnrRowsMatch(i: nat)
    requires 22 <= i < TABLE_SIZE
    ensures PlaceOf(i) == (Row(i).cmd, Row(i).word)
  {
  }

  /** The table and the getters name the same place. */
  lemma TableMatchesGetters(i: nat)
    requires i < TABLE_SIZE
    ensures PlaceOf(i) == (Row(i).cmd, Row(i).word)
  {
    if i < 6 { CommonRowsMatch(i); } else if i < 22 { ThresholdRowsMatch(i); } else { SnrRowsMatch(i); }
  }

  lemma PlacesDistinct(i: nat, j: nat)
    requires i < TABLE_SIZE && j < TABLE_SIZE && PlaceOf(i) == PlaceOf(j)
    ensures i == j
  {
  }

  /** Setting the parameter with the i-th name changes the i-th value the getters return to the value
    * set, and no other. */
  lemma SetThenGet(st: Store, i: nat, value: nat)
    requires i < TABLE_SIZE && value < UINT32_MODULUS
    ensures Readings(Written(st, WriteRequest(i, value))) == Readings(st)[i := value]
  {
    forall j: nat | j < TABLE_SIZE
      ensures ChangedAt(Readings(st), Readings(Written(st, WriteRequest(i, value))), i, value, j)
    {
      SetThenGetAt(st, i, value, j);
    }
    ChangedOnce(Readings(st), Readings(Written(st, WriteRequest(i, value))), i, value);
  }

  predicate ChangedAt(before: seq<nat>, after: seq<nat>, i: nat, value: nat, j: nat)
    requires |before| == |after|
  {
    j < |before| ==> after[j] == if j == i then value else before[j]
  }

  lemma ChangedOnce(before: seq<nat>, after: seq<nat>, i: nat, value: nat)
    requires |before| == |after| && i < |before|
    requires forall j: nat :: j < |before| ==> ChangedAt(before, after, i, value, j)
    ensures after == before[i := value]
  {
    forall j: nat | j < |before|
      ensures after[j] == before[i := value][j]
    {
      assert ChangedAt(before, after, i, value, j);
    }
  }

  lemma SetThenGetAt(st: Store, i: nat, value: nat, j: nat)
    requires i < TABLE_SIZE && value < UINT32_MODULUS && j < TABLE_SIZE
    ensures Readings(Written(st, WriteRequest(i, value)))[j] == if j == i then value else Readings(st)[j]
  {
    WriteLands(st, i, value);
    ReadingAt(st, j);
    ReadingAt(Written(st, WriteRequest(i, value)), j);
    if PlaceOf(i) == PlaceOf(j) { PlacesDistinct(i, j); }
  }

  lemma WriteLands(st: Store, i: nat, value: nat)
    requires i < TABLE_SIZE && value < UINT32_MODULUS
    ensures var after := Written(st, WriteRequest(i, value));
      forall c: nat, w: nat :: At(after, (c, w)) == if (c, w) == PlaceOf(i) then value else At(st, (c, w))
  {
    var q := WriteRequest(i, value);
    TableMatchesGetters(i);
    ReadWriteU16(Row(i).word);
    ReadWriteU32(value);
    assert q.data[0..2] == WriteU16(Row(i).word) && q.data[2..6] == WriteU32(value);
  }

  // ---------------------------------------------------------------------------------------
  // What the names mean
  // ---------------------------------------------------------------------------------------

  /** Everything the three getters return. */
  datatype Params = Params(common: Common, threshold: Gates, snr: Gates)

  function GetAll(st: Store): (p: Params)
    ensures |p.threshold.trigger| == |p.threshold.holding| == |p.snr.trigger| == |p.snr.holding| == 8
  {
    Params(DecodeCommon(Some(Reply(st, CommonRequest()))).value,
           GatesOf(Reply(st, GateRequest(CMD_READ_THRESHOLD))), GatesOf(Reply(st, GateRequest(CMD_READ_SNR))))
  }

  function Decimal(g: nat): string
    requires g < 16
  {
    match g
    case 0 => "0"
    case 1 => "1"
    case 2 => "2"
    case 3 => "3"
    case 4 => "4"
    case 5 => "5"
    case 6 => "6"
    case 7 => "7"
    case 8 => "8"
    case 9 => "9"
    case 10 => "10"
    case 11 => "11"
    case 12 => "12"
    case 13 => "13"
    case 14 => "14"
    case _ => "15"
  }

  function GateName(g: nat, suffix: string): string
    requires g < 16
  {
    "gate_" + Decimal(g) + suffix
  }

  /** v is what p has under a common parameter's name. */
  predicate CommonField(c: Common, name: string, v: nat) {
    || (name == "farthest_gate" && v == c.farthest)
    || (name == "nearest_gate" && v == c.nearest)
    || (name == "unmanned_delay" && v == c.unmannedDelay)
    || (name == "status_report_freq" && v == c.statusFreq)
    || (name == "dist_report_freq" && v == c.distFreq)
    || (name == "response_speed" && v == c.speed)
  }

  /** v is what p has under a gate's name: gates 0 to 7 have thresholds, gates 8 to 15 SNR values. */
  predicate GateField(p: Params, name: string, v: nat, g: nat)
    requires g < 8 && |p.threshold.trigger| == |p.threshold.holding| == |p.snr.trigger| == |p.snr.holding| == 8
  {
    || (name == GateName(g, "_trigger") && v == p.threshold.trigger[g])
    || (name == GateName(g, "_holding") && v == p.threshold.holding[g])
    || (name == GateName(g + 8, "_trigger_snr") && v == p.snr.trigger[g])
    || (name == GateName(g + 8, "_hold_snr") && v == p.snr.holding[g])
  }

  predicate IsField(p: Params, name: string, v: nat)
    requires |p.threshold.trigger| == |p.threshold.holding| == |p.snr.trigger| == |p.snr.holding| == 8
  {
    CommonField(p.common, name, v) || exists g: nat :: g < 8 && GateField(p, name, v, g)
  }

  lemma TriggerName(g: nat)
    requires g < 8
    ensures Row(6 + 2 * g).name == GateName(g, "_trigger")
  {
    if g == 0 { assert "gate_" + "0" + "_trigger" == "gate_0_trigger"; }
    else if g == 1 { assert "gate_" + "1" + "_trigger" == "gate_1_trigger"; }
    else if g == 2 { assert "gate_" + "2" + "_trigger" == "gate_2_trigger"; }
    else if g == 3 { assert "gate_" + "3" + "_trigger" == "gate_3_trigger"; }
    else if g == 4 { assert "gate_" + "4" + "_trigger" == "gate_4_trigger"; }
    else if g == 5 { assert "gate_" + "5" + "_trigger" == "gate_5_trigger"; }
    else if g == 6 { assert "gate_" + "6" + "_trigger" == "gate_6_trigger"; }
    else if g == 7 { assert "gate_" + "7" + "_trigger" == "gate_7_trigger"; }
  }

  lemma HoldingName(g: nat)
    requires g < 8
    ensures Row(7 + 2 * g).name == GateName(g, "_holding")
  {
    if g == 0 { assert "gate_" + "0" + "_holding" == "gate_0_holding"; }
    else if g == 1 { assert "gate_" + "1" + "_holding" == "gate_1_holding"; }
    else if g == 2 { assert "gate_" + "2" + "_holding" == "gate_2_holding"; }
    else if g == 3 { assert "gate_" + "3" + "_holding" == "gate_3_holding"; }
    else if g == 4 { assert "gate_" + "4" + "_holding" == "gate_4_holding"; }
    else if g == 5 { assert "gate_" + "5" + "_holding" == "gate_5_holding"; }
    else if g == 6 { assert "gate_" + "6" + "_holding" == "gate_6_holding"; }
    else if g == 7 { assert "gate_" + "7" + "_holding" == "gate_7_holding"; }
  }

  lemma TriggerSnrName(g: nat)
    requires g < 8
    ensures Row(22 + 2 * g).name == GateName(g + 8, "_trigger_snr")
  {
    if g == 0 { assert "gate_" + "8" + "_trigger_snr" == "gate_8_trigger_snr"; }
    else if g == 1 { assert "gate_" + "9" + "_trigger_snr" == "gate_9_trigger_snr"; }
    else if g == 2 { assert "gate_" + "10" + "_trigger_snr" == "gate_10_trigger_snr"; }
    else if g == 3 { assert "gate_" + "11" + "_trigger_snr" == "gate_11_trigger_snr"; }
    else if g == 4 { assert "gate_" + "12" + "_trigger_snr" == "gate_12_trigger_snr"; }
    else if g == 5 { assert "gate_" + "13" + "_trigger_snr" == "gate_13_trigger_snr"; }
    else if g == 6 { assert "gate_" + "14" + "_trigger_snr" == "gate_14_trigger_snr"; }
    else if g == 7 { assert "gate_" + "15" + "_trigger_snr" == "gate_15_trigger_snr"; }
  }

  lemma HoldSnrName(g: nat)
    requires g < 8
    ensures Row(23 + 2 * g).name == GateName(g + 8, "_hold_snr")
  {
    if g == 0 { assert "gate_" + "8" + "_hold_snr" == "gate_8_hold_snr"; }
    else if g == 1 { assert "gate_" + "9" + "_hold_snr" == "gate_9_hold_snr"; }
    else if g == 2 { assert "gate_" + "10" + "_hold_snr" == "gate_10_hold_snr"; }
    else if g == 3 { assert "gate_" + "11" + "_hold_snr" == "gate_11_hold_snr"; }
    else if g == 4 { assert "gate_" + "12" + "_hold_snr" == "gate_12_hold_snr"; }
    else if g == 5 { assert "gate_" + "13" + "_hold_snr" == "gate_13_hold_snr"; }
    else if g == 6 { assert "gate_" + "14" + "_hold_snr" == "gate_14_hold_snr"; }
    else if g == 7 { assert "gate_" + "15" + "_hold_snr" == "gate_15_hold_snr"; }
  }

  lemma TriggerIsField(p: Params, name: string, g: nat)
    requires |p.threshold.trigger| == |p.threshold.holding| == |p.snr.trigger| == |p.snr.holding| == 8
    requires g < 8 && name == Row(6 + 2 * g).name
    ensures GateField(p, name, p.threshold.trigger[g], g)
  {
    TriggerName(g);
  }

  lemma HoldingIsField(p: Params, name: string, g: nat)
    requires |p.threshold.trigger| == |p.threshold.holding| == |p.snr.trigger| == |p.snr.holding| == 8
    requires g < 8 && name == Row(7 + 2 * g).name
    ensures GateField(p, name, p.threshold.holding[g], g)
  {
    HoldingName(g);
  }

  lemma TriggerSnrIsField(p: Params, name: string, g: nat)
    requires |p.threshold.trigger| == |p.threshold.holding| == |p.snr.trigger| == |p.snr.holding| == 8
    requires g < 8 && name == Row(22 + 2 * g).name
    ensures GateField(p, name, p.snr.trigger[g], g)
  {
    TriggerSnrName(g);
  }

  lemma HoldSnrIsField(p: Params, name: string, g: nat)
    requires |p.threshold.trigger| == |p.threshold.holding| == |p.snr.trigger| == |p.snr.holding| == 8
    requires g < 8 && name == Row(23 + 2 * g).name
    ensures GateField(p, name, p.snr.holding[g], g)
  {
    HoldSnrName(g);
  }

  /** Each name of the table stands for the field of that name: the getters find there what the sensor
    * stores at the place the name writes. */
  lemma NamesAreFields(st: Store, i: nat)
    requires i < TABLE_SIZE
    ensures IsField(GetAll(st), Row(i).name, st(Row(i).cmd, Row(i).word))
  {
    var p, name, v := GetAll(st), Row(i).name, st(Row(i).cmd, Row(i).word);
    TableMatchesGetters(i);
    ReadingAt(st, i);
    ReadingsSplit(st, i);
    if i < 6 {
      CommonRowIsField(p.common, i, v);
    } else {
      GateRowIsField(p, name, i, v);
    }
  }

  lemma GateRowIsField(p: Params, name: string, i: nat, v: nat)
    requires |p.threshold.trigger| == |p.threshold.holding| == |p.snr.trigger| == |p.snr.holding| == 8
    requires 6 <= i < TABLE_SIZE && name == Row(i).name
    requires v == if i < 22 then Alternate(p.threshold)[i - 6] else Alternate(p.snr)[i - 22]
    ensures IsField(p, name, v)
  {
    var g := (if i < 22 then i - 6 else i - 22) / 2;
    if i < 22 {
      if i == 6 + 2 * g { TriggerIsField(p, name, g); } else { HoldingIsField(p, name, g); }
    } else {
      if i == 22 + 2 * g { TriggerSnrIsField(p, name, g); } else { HoldSnrIsField(p, name, g); }
    }
    assert GateField(p, name, v, g);
  }

  lemma CommonRowIsField(c: Common, i: nat, v: nat)
    requires i < 6 && v == CommonList(c)[i]
    ensures CommonField(c, Row(i).name, v)
  {
  }

  /** Setting a parameter by name gives the field of that name the value set. */
  lemma SetByName(st: Store, i: nat, value: nat)
    requires i < TABLE_SIZE && value < UINT32_MODULUS
    ensures IsField(GetAll(Written(st, WriteRequest(i, value))), Row(i).name, value)
  {
    var after := Written(st, WriteRequest(i, value));
    NamesAreFields(after, i);
    TableMatchesGetters(i);
    WriteLands(st, i, value);
    assert At(after, PlaceOf(i)) == value;
  }
}
