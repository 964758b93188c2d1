/** The answer to reset (section 8.2 of ISO/IEC 7816-3): `parse_ATR` in
    pico-tunnel/util/util.c and the baud rate decision of `prot_t1` in
    pico-tunnel/pico_poc.c. */
module Atr {
  import opened Bytes

  const DIRECT: byte := 0x3B
  const INVERSE: byte := 0x3F

  // ---------- Interface bytes ----------

  /** Bit `k` of the high nibble of T0 or a TD byte announces TA, TB, TC or TD. */
  predicate Announces(td: byte, k: nat)
    requires k < 4
  {
    match k
    case 0 => (td / 16) % 2 == 1
    case 1 => (td / 32) % 2 == 1
    case 2 => (td / 64) % 2 == 1
    case _ => (td / 128) % 2 == 1
  }

  function Announced(td: byte): (n: nat)
    ensures n <= 4
    ensures n == 0 <==> td < 16
    ensures Announces(td, 3) ==> n >= 1
  {
    (if Announces(td, 0) then 1 else 0) + (if Announces(td, 1) then 1 else 0)
    + (if Announces(td, 2) then 1 else 0) + (if Announces(td, 3) then 1 else 0)
  }

  /** T0 or a TD byte with the chain of TD bytes behind it, when all bytes they
      announce are present; `index` is where the announced bytes begin. */
  function TdChain(p: Bytes, td: byte, index: nat): Option<seq<byte>>
    requires index <= |p|
    decreases |p| - index
  {
    var end := index + Announced(td);
    if end > |p| then None
    else if !Announces(td, 3) then Some([td])
    else
      match TdChain(p, p[end - 1], end)
      case Some(rest) => Some([td] + rest)
      case None => None
  }

  /** The number of interface bytes that a chain announces. */
  function TotalAnnounced(chain: seq<byte>): nat {
    if chain == [] then 0 else Announced(chain[0]) + TotalAnnounced(chain[1..])
  }

  ghost predicate Complete(p: Bytes) {
    |p| >= 2 && TdChain(p, p[1], 2).Some?
  }

  // ---------- Parameters ----------

  function ConvertF(ta1: byte): nat {
    match ta1 / 16
    case 2 => 558 case 3 => 744 case 4 => 1116 case 5 => 1408 case 6 => 1860
    case 9 => 512 case 10 => 768 case 11 => 1024 case 12 => 1536 case 13 => 2048
    case _ => 372
  }

  function ConvertD(ta1: byte): nat {
    match ta1 % 16
    case 1 => 1 case 2 => 2 case 3 => 4 case 4 => 8 case 5 => 16 case 6 => 32
    case 8 => 12 case 9 => 20
    case _ => 1
  }

  /** IFSC, BWI and CWI. */
  datatype T1Parameters = T1Parameters(ifsc: byte, bwi: byte, cwi: byte)

  const T1_DEFAULTS := T1Parameters(32, 4, 13)

  /** The parameters announced behind `td` at `index`. */
  function Group(p: Bytes, td: byte, index: nat): T1Parameters
    requires index + Announced(td) <= |p|
  {
    var tb := index + (if Announces(td, 0) then 1 else 0);
    T1Parameters(
      if Announces(td, 0) then p[index] else 32,
      if Announces(td, 1) then p[tb] / 16 else 4,
      if Announces(td, 1) then p[tb] % 16 else 13)
  }

  /** The parameters after the walk has handled the groups from `td` on. A group
      is taken over when the TD byte behind it, or its own where none follows,
      names protocol 0 or 1. */
  function Scan(p: Bytes, td: byte, index: nat, current: T1Parameters): T1Parameters
    requires index <= |p| && TdChain(p, td, index).Some?
    decreases |p| - index
  {
    if td < 16 then current
    else
      var end := index + Announced(td);
      if Announces(td, 3) then
        var next := p[end - 1];
        Scan(p, next, end, if next % 16 <= 1 then Group(p, td, index) else current)
      else if td % 16 <= 1 then Group(p, td, index)
      else current
  }

  // ---------- parse_ATR ----------

  class AnswerToReset {
    var payload: Bytes
    var F: nat
    var D: nat
    var parameters: T1Parameters
    var protocol: nat

    constructor (payload: Bytes)
      ensures this.payload == payload
    {
      this.payload := payload;
      F, D, parameters, protocol := 0, 0, T1_DEFAULTS, 0;
    }

    /** Index of the byte after the last interface byte, for a byte string in
        direct convention whose announced bytes are all present. */
    method ParseDirect() returns (index: nat)
      requires Complete(payload) && payload[0] == DIRECT
      modifies this`F, this`D, this`parameters, this`protocol
      ensures index == 2 + TotalAnnounced(TdChain(payload, payload[1], 2).value) <= |payload|
      ensures (F, D, protocol) == LineParameters(payload)
      ensures parameters == T1ParametersOf(payload)
    {
      hide LineParameters, TotalAnnounced;
      ghost var end := WalkEnd(payload, payload[1], 2);
      EndIsTotal(payload, payload[1], 2);
      var td1, tdNext;
      td1, index := ReadT0();
      tdNext, index := SkipGroup(td1, index);
      parameters := T1_DEFAULTS;
      assert Scan(payload, tdNext, index, T1_DEFAULTS) == T1ParametersOf(payload);
      while tdNext >= 16
        invariant index <= |payload| && TdChain(payload, tdNext, index).Some?
        invariant WalkEnd(payload, tdNext, index) == end
        invariant Scan(payload, tdNext, index, parameters) == T1ParametersOf(payload)
        invariant (F, D, protocol) == LineParameters(payload)
        decreases |payload| - index, tdNext
      {
        tdNext, index, parameters := ScanGroup(tdNext, index);
      }
    }

    /** The interface bytes announced by T0. */
    method ReadT0() returns (td1: byte, index: nat)
      requires Complete(payload)
      modifies this`F, this`D, this`protocol
      ensures index == 2 + Announced(payload[1]) <= |payload|
      ensures td1 == if Announces(payload[1], 3) then payload[index - 1] else 0
      ensures TdChain(payload, td1, index).Some?
      ensures WalkEnd(payload, td1, index) == WalkEnd(payload, payload[1], 2)
      ensures (F, D, protocol) == LineParameters(payload)
    {
      hide ConvertF, ConvertD;
      D, F, protocol := 1, 372, 2;
      td1, index := 0, 2;
      var t0 := payload[1];
      if Announces(t0, 0) {
        D := ConvertD(payload[index]);
        F := ConvertF(payload[index]);
        index := index + 1;
      }
      if Announces(t0, 1) {
        index := index + 1;
      }
      if Announces(t0, 2) {
        index := index + 1;
      }
      if Announces(t0, 3) {
        td1 := payload[index];
        if td1 % 16 == 1 {
          protocol := 1;
        } else if td1 % 16 == 0 {
          protocol := 0;
        } else {
          D, F := 1, 372;
        }
        index := index + 1;
      }
    }

    /** The interface bytes announced by TD1, of which only TD2 is used. */
    method SkipGroup(td1: byte, start: nat) returns (tdNext: byte, index: nat)
      requires start <= |payload| && TdChain(payload, td1, start).Some?
      ensures index == start + Announced(td1) <= |payload|
      ensures tdNext == if Announces(td1, 3) then payload[index - 1] else 0
      ensures TdChain(payload, tdNext, index).Some?
      ensures WalkEnd(payload, tdNext, index) == WalkEnd(payload, td1, start)
    {
      tdNext, index := 0, start;
      if Announces(td1, 0) {
        index := index + 1;
      }
      if Announces(td1, 1) {
        index := index + 1;
      }
      if Announces(td1, 2) {
        index := index + 1;
      }
      if Announces(td1, 3) {
        tdNext := payload[index];
        index := index + 1;
      }
    }

    /** One iteration of the loop over the groups behind TD2. */
    method ScanGroup(tdNow: byte, start: nat) returns (tdNext: byte, index: nat, result: T1Parameters)
      requires tdNow >= 16 && start <= |payload| && TdChain(payload, tdNow, start).Some?
      ensures index == start + Announced(tdNow) <= |payload| && TdChain(payload, tdNext, index).Some?
      ensures WalkEnd(payload, tdNext, index) == WalkEnd(payload, tdNow, start)
      ensures Scan(payload, tdNext, index, result) == Scan(payload, tdNow, start, parameters)
    {
      index, tdNext, result := start, 0, parameters;
      var ifsc: byte, bwi: byte, cwi: byte := 32, 4, 13;
      if Announces(tdNow, 0) {
        ifsc := payload[index];
        index := index + 1;
      }
      if Announces(tdNow, 1) {
        bwi, cwi := payload[index] / 16, payload[index] % 16;
        index := index + 1;
      }
      if Announces(tdNow, 2) {
        index := index + 1;
      }
      assert T1Parameters(ifsc, bwi, cwi) == Group(payload, tdNow, start);
      if Announces(tdNow, 3) {
        tdNext := payload[index];
        if tdNext % 16 <= 1 {
          result := T1Parameters(ifsc, bwi, cwi);
        }
        index := index + 1;
      } else if tdNow % 16 <= 1 {
        result := T1Parameters(ifsc, bwi, cwi);
      }
    }

    /** parse_ATR: an inverse-convention answer is complemented first, and one
        with any other first byte is left alone. */
    method ParseAtr()
      requires |payload| >= 1
      requires payload[0] == DIRECT ==> Complete(payload)
      requires payload[0] == INVERSE ==> Complete(Complemented(payload))
      modifies this
      ensures payload == if old(payload[0]) == INVERSE then Complemented(old(payload)) else old(payload)
      ensures payload[0] == DIRECT ==>
        (F, D, protocol) == LineParameters(payload) && parameters == T1ParametersOf(payload)
      ensures payload[0] != DIRECT ==> unchanged(this)
    {
      if payload[0] == INVERSE {
        payload := Complemented(payload);
        var _ := ParseDirect();
        return;
      }
      if payload[0] != DIRECT {
        return;
      }
      var _ := ParseDirect();
    }
  }

  function Complemented(p: Bytes): (r: Bytes)
    requires |p| >= 1
    ensures |r| == |p| && r[0] == DIRECT
  {
    [DIRECT] + seq(|p| - 1, i requires 0 <= i < |p| - 1 => 255 - p[i + 1])
  }

  // ---------- What the walk computes ----------

  ghost function WalkEnd(p: Bytes, td: byte, index: nat): nat
    requires index <= |p| && TdChain(p, td, index).Some?
    decreases |p| - index
  {
    var end := index + Announced(td);
    if Announces(td, 3) then WalkEnd(p, p[end - 1], end) else end
  }

  lemma {:induction false} EndIsTotal(p: Bytes, td: byte, index: nat)
    requires index <= |p| && TdChain(p, td, index).Some?
    ensures WalkEnd(p, td, index) == index + TotalAnnounced(TdChain(p, td, index).value) <= |p|
    decreases |p| - index
  {
    var end := index + Announced(td);
    var chain := TdChain(p, td, index).value;
    assert chain[0] == td;
    if Announces(td, 3) {
      EndIsTotal(p, p[end - 1], end);
      assert chain[1..] == TdChain(p, p[end - 1], end).value;
    } else {
      assert chain[1..] == [];
    }
  }

  /** Where TD1 is, when T0 announces it. */
  ghost function Td1Index(p: Bytes): nat
    requires |p| >= 2
  {
    1 + Announced(p[1])
  }

  /** F, D and the protocol: TA1 counts unless TD1 names a protocol other than 0
      and 1; without TD1 the protocol is the invalid value 2. */
  ghost function LineParameters(p: Bytes): (nat, nat, nat)
    requires Complete(p)
  {
    var (f, d) := if Announces(p[1], 0) then (ConvertF(p[2]), ConvertD(p[2])) else (372, 1);
    if !Announces(p[1], 3) then (f, d, 2)
    else
      var t := p[Td1Index(p)] % 16;
      if t <= 1 then (f, d, t) else (372, 1, 2)
  }

  ghost function T1ParametersOf(p: Bytes): T1Parameters
    requires Complete(p)
  {
    if !Announces(p[1], 3) then T1_DEFAULTS
    else
      var i := Td1Index(p);
      var td1 := p[i];
      assert TdChain(p, td1, i + 1).Some?;
      if !Announces(td1, 3) then T1_DEFAULTS
      else
        var j := i + Announced(td1);
        Scan(p, p[j], j + 1, T1_DEFAULTS)
  }

  // ---------- F, D and the protocol ----------

  /** The tables of section 8.3 by the high and the low nibble of TA1, with the
      default values of 372 and 1 for reserved entries. */
  const F_TABLE: seq<nat> := [372, 372, 558, 744, 1116, 1408, 1860, 372, 372, 512, 768, 1024, 1536, 2048, 372, 372]
  const D_TABLE: seq<nat> := [1, 1, 2, 4, 8, 16, 32, 1, 12, 20, 1, 1, 1, 1, 1, 1]

  lemma TablesOfTa1(ta1: byte)
    ensures ConvertF(ta1) == F_TABLE[ta1 / 16] && ConvertD(ta1) == D_TABLE[ta1 % 16]
  {
  }

  /** TD1 names the protocol: 0 or 1, and 2 stands for any other one and for an
      answer without TD1. TA1 gives F and D unless TD1 names another protocol. */
  lemma LineParametersByBytes(p: Bytes)
    requires Complete(p)
    ensures var (f, d, protocol) := LineParameters(p);
      var hasTa1, hasTd1 := p[1] / 16 % 2 == 1, p[1] >= 128;
      && (hasTa1 ==> |p| > 2)
      && (hasTd1 ==> Td1Index(p) < |p|)
      && (protocol == 0 <==> hasTd1 && p[Td1Index(p)] % 16 == 0)
      && (protocol == 1 <==> hasTd1 && p[Td1Index(p)] % 16 == 1)
      && protocol <= 2
      && (if hasTa1 && !(hasTd1 && p[Td1Index(p)] % 16 >= 2) then f == F_TABLE[p[2] / 16] && d == D_TABLE[p[2] % 16]
          else f == 372 && d == 1)
  {
    hide ConvertF, ConvertD;
    if p[1] / 16 % 2 == 1 {
      TablesOfTa1(p[2]);
    }
  }

  /** TD1 lies behind T0 and the TA1, TB1 and TC1 that T0 announces. */
  lemma Td1Position(p: Bytes)
    requires |p| >= 2 && p[1] >= 128
    ensures Td1Index(p) == 2 + p[1] / 16 % 2 + p[1] / 32 % 2 + p[1] / 64 % 2
  {
  }

  /** The inverse convention: every byte but the first is complemented. */
  lemma ComplementedByBytes(p: Bytes)
    requires |p| >= 1
    ensures |Complemented(p)| == |p| && Complemented(p)[0] == 0x3B
    ensures forall i :: 1 <= i < |p| ==> Complemented(p)[i] + p[i] == 0xFF
  {
  }

  // ---------- Which parameters are meant ----------

  /** Where the bytes announced by TD byte `j` of a chain begin. */
  function GroupStart(tds: seq<byte>, index: nat, j: nat): nat
    requires j <= |tds|
    decreases j
  {
    if j == 0 then index else GroupStart(tds[1..], index + Announced(tds[0]), j - 1)
  }

  /** Index of TA (`k` is 0) or TB (`k` is 1) of a group. */
  function ByteIndex(tds: seq<byte>, index: nat, j: nat, k: nat): nat
    requires j < |tds| && k < 2
  {
    GroupStart(tds, index, j) + if k == 1 && Announces(tds[j], 0) then 1 else 0
  }

  /** The groups behind TD2, TD3, ..., by number from 0; `None` stands for the
      defaults. */
  type Choice = Option<nat>

  /** Sections 11.4.2 and 11.4.3: the first TA, and the first TB, of a group that
      is for T=1. */
  function FirstForT1(tds: seq<byte>, k: nat): (c: Choice)
    requires k < 2
    ensures c.Some? ==> c.value < |tds| && Announces(tds[c.value], k)
  {
    if tds == [] then None
    else if tds[0] % 16 == 1 && Announces(tds[0], k) then Some(0)
    else
      match FirstForT1(tds[1..], k)
      case None => None
      case Some(j) => Some(j + 1)
  }

  /** The number of the last TD byte for protocol 0 or 1. */
  function LastForT0OrT1(tds: seq<byte>): (c: Choice)
    ensures c.Some? ==> c.value < |tds|
  {
    if tds == [] then None
    else if tds[|tds| - 1] % 16 <= 1 then Some(|tds| - 1)
    else LastForT0OrT1(tds[..|tds| - 1])
  }

  /** The group that the walk ends up with: the last one, when it announces
      anything and is for protocol 0 or 1, and otherwise the one in front of the
      last TD byte for protocol 0 or 1. */
  function UsedGroup(tds: seq<byte>): (c: Choice)
    ensures c.Some? ==> c.value < |tds|
  {
    if tds != [] && tds[|tds| - 1] % 16 <= 1 && tds[|tds| - 1] >= 16 then Some(|tds| - 1)
    else
      match LastForT0OrT1(tds)
      case None => None
      case Some(j) => if j == 0 then None else Some(j - 1)
  }

  /** The same where TA or TB comes from: from the group used, if it is there. */
  function UsedFor(tds: seq<byte>, k: nat): (c: Choice)
    requires k < 2
    ensures c.Some? ==> c.value < |tds| && Announces(tds[c.value], k)
  {
    var c := UsedGroup(tds);
    if c.Some? && Announces(tds[c.value], k) then c else None
  }

  /** The TD bytes from TD2 on, and the index behind TD2. */
  ghost function Tds(p: Bytes): seq<byte>
    requires Complete(p)
  {
    var chain := TdChain(p, p[1], 2).value;
    if |chain| < 2 then [] else chain[2..]
  }

  ghost function TdsIndex(p: Bytes): nat
    requires Complete(p)
  {
    var chain := TdChain(p, p[1], 2).value;
    if |chain| < 3 then 2 else GroupStart(chain, 2, 2)
  }

  /** A parameter byte of a chosen group, or its default. */
  ghost function ByteOf(p: Bytes, tds: seq<byte>, index: nat, c: Choice, k: nat): byte
    requires k < 2
    requires c.Some? ==> c.value < |tds| && ByteIndex(tds, index, c.value, k) < |p|
  {
    if c.Some? then p[ByteIndex(tds, index, c.value, k)] else if k == 0 then 32 else 0x4D
  }

  function FromBytes(ta: byte, tb: byte): T1Parameters {
    T1Parameters(ta, tb / 16, tb % 16)
  }

  ghost function MeantParameters(p: Bytes): T1Parameters
    requires Complete(p)
  {
    var tds, index := Tds(p), TdsIndex(p);
    ChosenBytesExist(p, FirstForT1(tds, 0), 0);
    ChosenBytesExist(p, FirstForT1(tds, 1), 1);
    FromBytes(ByteOf(p, tds, index, FirstForT1(tds, 0), 0), ByteOf(p, tds, index, FirstForT1(tds, 1), 1))
  }

  lemma {:induction false} GroupFits(p: Bytes, td: byte, index: nat, j: nat)
    requires index <= |p| && TdChain(p, td, index).Some? && j < |TdChain(p, td, index).value|
    ensures var tds := TdChain(p, td, index).value;
      GroupStart(tds, index, j) + Announced(tds[j]) <= |p| && index <= GroupStart(tds, index, j)
    decreases j
  {
    hide Announced, Announces;
    var tds := TdChain(p, td, index).value;
    var end := index + Announced(td);
    assert tds[0] == td;
    if j == 0 {
      assert GroupStart(tds, index, 0) == index;
    } else {
      assert Announces(td, 3);
      assert tds[1..] == TdChain(p, p[end - 1], end).value;
      GroupFits(p, p[end - 1], end, j - 1);
      assert GroupStart(tds, index, j) == GroupStart(tds[1..], end, j - 1) && tds[1..][j - 1] == tds[j];
    }
  }

  lemma GroupStartSkips(chain: seq<byte>, index: nat, j: nat)
    requires |chain| >= 2 && j <= |chain| - 2
    ensures GroupStart(chain, index, j + 2) == GroupStart(chain[2..], GroupStart(chain, index, 2), j)
  {
    assert chain[1..][1..] == chain[2..];
    assert GroupStart(chain[1..], index + Announced(chain[0]), 1)
        == GroupStart(chain[2..], index + Announced(chain[0]) + Announced(chain[1]), 0);
  }

  lemma ChosenBytesExist(p: Bytes, c: Choice, k: nat)
    requires Complete(p) && k < 2
    requires c.Some? ==> c.value < |Tds(p)| && Announces(Tds(p)[c.value], k)
    ensures c.Some? ==> ByteIndex(Tds(p), TdsIndex(p), c.value, k) < |p|
  {
    if c.Some? {
      var chain := TdChain(p, p[1], 2).value;
      GroupStartSkips(chain, 2, c.value);
      GroupFits(p, p[1], 2, c.value + 2);
    }
  }

  // ---------- The walk ends with the group used ----------

  lemma {:induction false} LastOfCons(td: byte, rest: seq<byte>)
    ensures LastForT0OrT1([td] + rest)
         == match LastForT0OrT1(rest)
            case Some(j) => Some(j + 1)
            case None => if td % 16 <= 1 then Some(0) else None
  {
    var tds := [td] + rest;
    if rest == [] {
      assert tds[..0] == [];
    } else {
      LastOfCons(td, rest[..|rest| - 1]);
      assert tds[..|tds| - 1] == [td] + rest[..|rest| - 1];
    }
  }

  lemma {:induction false} FirstIsLast(tds: seq<byte>)
    requires tds != []
    ensures LastForT0OrT1(tds) == Some(0) ==> tds[0] % 16 <= 1
    ensures LastForT0OrT1(tds).None? ==> tds[0] % 16 > 1
  {
    LastOfCons(tds[0], tds[1..]);
    assert tds == [tds[0]] + tds[1..];
  }

  lemma UsedOfCons(td: byte, rest: seq<byte>)
    requires rest != []
    ensures UsedGroup([td] + rest)
         == match UsedGroup(rest)
            case Some(j) => Some(j + 1)
            case None => if rest[0] % 16 <= 1 then Some(0) else None
  {
    hide LastForT0OrT1;
    LastOfCons(td, rest);
    FirstIsLast(rest);
    var tds := [td] + rest;
    assert tds[|tds| - 1] == rest[|rest| - 1];
  }

  /** The parameters after the walk are those of the group used. */
  lemma {:induction false} ScanEndsWithUsed(p: Bytes, td: byte, index: nat, current: T1Parameters)
    requires index <= |p| && TdChain(p, td, index).Some?
    ensures var tds := TdChain(p, td, index).value;
      match UsedGroup(tds)
      case None => Scan(p, td, index, current) == current
      case Some(j) =>
        GroupStart(tds, index, j) + Announced(tds[j]) <= |p|
        && Scan(p, td, index, current) == Group(p, tds[j], GroupStart(tds, index, j))
    decreases |p| - index
  {
    hide UsedGroup, Group, Announced, Announces;
    var end := index + Announced(td);
    if Announces(td, 3) {
      var next := p[end - 1];
      var rest := TdChain(p, next, end).value;
      assert TdChain(p, td, index).value == [td] + rest && ([td] + rest)[1..] == rest;
      ScanEndsWithUsed(p, next, end, if next % 16 <= 1 then Group(p, td, index) else current);
      UsedOfCons(td, rest);
    } else {
      UsedOfOne(td);
    }
  }

  lemma UsedOfOne(td: byte)
    ensures UsedGroup([td]) == if td >= 16 && td % 16 <= 1 then Some(0) else None
  {
    assert [td][..0] == [];
  }

  /** Whatever the announced bytes are, the walk takes TA and TB from the group
      used, where it announces them, and the defaults otherwise. */
  lemma ParametersComeFromUsed(p: Bytes)
    requires Complete(p)
    ensures var tds, index := Tds(p), TdsIndex(p);
      && (forall k | 0 <= k < 2 :: UsedFor(tds, k).Some? ==> ByteIndex(tds, index, UsedFor(tds, k).value, k) < |p|)
      && T1ParametersOf(p)
         == FromBytes(ByteOf(p, tds, index, UsedFor(tds, 0), 0), ByteOf(p, tds, index, UsedFor(tds, 1), 1))
  {
    hide UsedGroup, Scan, Announces, Announced, Group, FromBytes, GroupStart, Tds, TdsIndex, TdChain, Complete, T1ParametersOf;
    var tds, index := Tds(p), TdsIndex(p);
    ChosenBytesExist(p, UsedFor(tds, 0), 0);
    ChosenBytesExist(p, UsedFor(tds, 1), 1);
    ChainBehindTd1(p);
    if tds != [] {
      ScanEndsWithUsed(p, tds[0], index, T1_DEFAULTS);
      var used := UsedGroup(tds);
      if used.Some? {
        GroupAsBytes(p, tds[used.value], GroupStart(tds, index, used.value));
      } else {
        DefaultsAsBytes();
      }
    } else {
      DefaultsAsBytes();
      NothingUsed();
    }
  }

  lemma GroupAsBytes(p: Bytes, td: byte, start: nat)
    requires start + Announced(td) <= |p|
    ensures var tb := start + if Announces(td, 0) then 1 else 0;
      && (Announces(td, 0) ==> start < |p|) && (Announces(td, 1) ==> tb < |p|)
      && Group(p, td, start)
         == FromBytes(if Announces(td, 0) then p[start] else 32, if Announces(td, 1) then p[tb] else 0x4D)
  {
  }

  lemma DefaultsAsBytes()
    ensures T1_DEFAULTS == FromBytes(32, 0x4D)
  {
  }

  lemma NothingUsed()
    ensures UsedGroup([]).None?
  {
  }

  lemma ChainBehindTd1(p: Bytes)
    requires Complete(p)
    ensures var tds, index := Tds(p), TdsIndex(p);
      && index <= |p|
      && (tds == [] ==> T1ParametersOf(p) == T1_DEFAULTS)
      && (tds != [] ==>
           TdChain(p, tds[0], index) == Some(tds) && T1ParametersOf(p) == Scan(p, tds[0], index, T1_DEFAULTS))
  {
    hide Scan;
    var chain := TdChain(p, p[1], 2).value;
    if Announces(p[1], 3) {
      var i := Td1Index(p);
      var rest := TdChain(p, p[i], i + 1).value;
      assert chain == [p[1]] + rest;
      if Announces(p[i], 3) {
        var j := i + Announced(p[i]);
        var tds := TdChain(p, p[j], j + 1).value;
        assert rest == [p[i]] + tds;
        assert chain[2..] == tds && chain[1..] == rest;
        assert GroupStart(chain, 2, 2) == GroupStart(rest, i + 1, 1) == j + 1;
      }
    }
  }

  // ---------- When the walk finds the parameters that are meant ----------

  lemma {:induction false} StartsGrow(tds: seq<byte>, index: nat, i: nat, j: nat)
    requires i < j < |tds|
    ensures GroupStart(tds, index, i) + Announced(tds[i]) <= GroupStart(tds, index, j)
    decreases i
  {
    hide Announced;
    if i == 0 {
      StartsBehind(tds[1..], index + Announced(tds[0]), j - 1);
    } else {
      StartsGrow(tds[1..], index + Announced(tds[0]), i - 1, j - 1);
    }
  }

  lemma {:induction false} StartsBehind(tds: seq<byte>, index: nat, j: nat)
    requires j <= |tds|
    ensures index <= GroupStart(tds, index, j)
    decreases j
  {
    hide Announced;
    if j > 0 {
      StartsBehind(tds[1..], index + Announced(tds[0]), j - 1);
    }
  }

  /** A group's TA and TB lie within the group, in front of its TD. */
  lemma WithinGroup(td: byte, k: nat)
    requires k < 2 && Announces(td, k)
    ensures (if k == 1 && Announces(td, 0) then 1 else 0) < Announced(td) - (if Announces(td, 3) then 1 else 0)
  {
  }

  lemma BytesApart(tds: seq<byte>, index: nat, i: nat, j: nat, k: nat)
    requires i < j < |tds| && k < 2 && Announces(tds[i], k)
    ensures ByteIndex(tds, index, i, k) < ByteIndex(tds, index, j, k)
  {
    hide Announces, Announced;
    StartsGrow(tds, index, i, j);
    WithinGroup(tds[i], k);
  }

  /** The chain depends only on the bytes behind its beginning. */
  lemma {:induction false} ChainOfSuffix(p: Bytes, p': Bytes, td: byte, index: nat)
    requires |p| == |p'| && index <= |p| && p[index..] == p'[index..]
    ensures TdChain(p, td, index) == TdChain(p', td, index)
    decreases |p| - index
  {
    hide Announces, Announced;
    var end := index + Announced(td);
    if end <= |p| && Announces(td, 3) {
      assert p[end - 1] == p[index..][end - 1 - index] == p'[end - 1];
      assert p[end..] == p[index..][end - index..] && p'[end..] == p'[index..][end - index..];
      ChainOfSuffix(p, p', p[end - 1], end);
    }
  }

  /** Two byte strings that agree on the TD byte of the first group and behind it. */
  lemma ChainBehindGroup(p: Bytes, p': Bytes, td: byte, index: nat)
    requires |p| == |p'| && index <= |p| && TdChain(p, td, index).Some?
    requires Announces(td, 3) ==>
      var end := index + Announced(td);
      p[end - 1] == p'[end - 1] && TdChain(p, p[end - 1], end) == TdChain(p', p[end - 1], end)
    ensures TdChain(p, td, index) == TdChain(p', td, index)
  {
    hide Announces, Announced;
  }

  /** Another value of a TA or TB leaves all TD bytes as they are. */
  lemma {:induction false} ChangedByteKeepsChain(p: Bytes, tds: seq<byte>, index: nat, j: nat, k: nat, v: byte)
    requires index <= |p| && tds != [] && TdChain(p, tds[0], index) == Some(tds) && k < 2
    requires j < |tds| && Announces(tds[j], k) && ByteIndex(tds, index, j, k) < |p|
    ensures TdChain(p[ByteIndex(tds, index, j, k) := v], tds[0], index) == Some(tds)
    decreases j
  {
    hide Announces, Announced;
    var td := tds[0];
    var q := ByteIndex(tds, index, j, k);
    var p' := p[q := v];
    var end := index + Announced(td);
    if Announces(td, 3) {
      var rest := tds[1..];
      assert TdChain(p, p[end - 1], end) == Some(rest);
      if j == 0 {
        WithinGroup(td, k);
        ChainOfSuffix(p, p', p[end - 1], end);
      } else {
        FirstOfChain(p, p[end - 1], end);
        assert rest[j - 1] == tds[j] && q == ByteIndex(rest, end, j - 1, k);
        StartsBehind(rest, end, j - 1);
        ChangedByteKeepsChain(p, rest, end, j - 1, k, v);
      }
    }
    ChainBehindGroup(p, p', td, index);
  }

  lemma FirstOfChain(p: Bytes, td: byte, index: nat)
    requires index <= |p| && TdChain(p, td, index).Some?
    ensures TdChain(p, td, index).value != [] && TdChain(p, td, index).value[0] == td
  {
  }

  ghost predicate SameTdBytes(p: Bytes, q: Bytes) {
    Complete(p) && Complete(q) && TdChain(p, p[1], 2) == TdChain(q, q[1], 2)
  }

  /** Condition on the TD bytes from TD2 on: TA and TB are each taken from the
      group that the standard means. */
  predicate TakesWhatIsMeant(tds: seq<byte>) {
    UsedFor(tds, 0) == FirstForT1(tds, 0) && UsedFor(tds, 1) == FirstForT1(tds, 1)
  }

  lemma SameTdsSamePlaces(p: Bytes, q: Bytes)
    requires SameTdBytes(p, q)
    ensures Tds(p) == Tds(q) && TdsIndex(p) == TdsIndex(q)
  {
  }

  /** An answer with another value of one TA or TB. */
  lemma ChangeByte(p: Bytes, j: nat, k: nat, v: byte) returns (p': Bytes)
    requires Complete(p) && j < |Tds(p)| && k < 2 && Announces(Tds(p)[j], k)
    ensures ByteIndex(Tds(p), TdsIndex(p), j, k) < |p|
    ensures p' == p[ByteIndex(Tds(p), TdsIndex(p), j, k) := v] && SameTdBytes(p, p')
  {
    hide Announces, Announced, TdChain, GroupStart;
    var chain := TdChain(p, p[1], 2).value;
    ChosenBytesExist(p, Some(j), k);
    GroupStartSkips(chain, 2, j);
    var i := ByteIndex(chain, 2, j + 2, k);
    assert i == ByteIndex(Tds(p), TdsIndex(p), j, k);
    StartsBehind(chain, 2, j + 2);
    p' := p[i := v];
    FirstOfChain(p, p[1], 2);
    ChangedByteKeepsChain(p, chain, 2, j + 2, k, v);
  }

  /** Where the choices differ, some answer with the same TD bytes goes wrong. */
  lemma WrongChoiceShows(p: Bytes, k: nat) returns (p': Bytes)
    requires Complete(p) && k < 2 && UsedFor(Tds(p), k) != FirstForT1(Tds(p), k)
    ensures SameTdBytes(p, p') && T1ParametersOf(p') != MeantParameters(p')
  {
    hide UsedFor, FirstForT1, Announces, Announced, ByteIndex, FromBytes, T1ParametersOf, TdChain, Complete;
    var tds, index := Tds(p), TdsIndex(p);
    var used, meant := UsedFor(tds, k), FirstForT1(tds, k);
    ChosenBytesExist(p, used, k);
    ChosenBytesExist(p, meant, k);
    var changed, other := if used.Some? then used else meant, if used.Some? then meant else used;
    var v: byte := if ByteOf(p, tds, index, other, k) == 0 then 1 else 0;
    p' := ChangeByte(p, changed.value, k, v);
    SameTdsSamePlaces(p, p');
    if other.Some? {
      if other.value < changed.value {
        BytesApart(tds, index, other.value, changed.value, k);
      } else {
        BytesApart(tds, index, changed.value, other.value, k);
      }
    }
    assert ByteOf(p', tds, index, other, k) == ByteOf(p, tds, index, other, k);
    assert ByteOf(p', tds, index, changed, k) == v;
    ParametersComeFromUsed(p');
    ChosenBytesExist(p', UsedFor(tds, 0), 0);
    ChosenBytesExist(p', UsedFor(tds, 1), 1);
    ChosenBytesExist(p', FirstForT1(tds, 0), 0);
    ChosenBytesExist(p', FirstForT1(tds, 1), 1);
    BytesMatter(ByteOf(p', tds, index, UsedFor(tds, 0), 0), ByteOf(p', tds, index, UsedFor(tds, 1), 1),
                ByteOf(p', tds, index, FirstForT1(tds, 0), 0), ByteOf(p', tds, index, FirstForT1(tds, 1), 1));
  }

  lemma BytesMatter(ta: byte, tb: byte, ta': byte, tb': byte)
    ensures FromBytes(ta, tb) == FromBytes(ta', tb') <==> ta == ta' && tb == tb'
  {
  }

  /** parse_ATR finds IFSC, BWI and CWI for every answer with these TD bytes iff
      for TA as well as TB the group it uses is the first one for T=1 that
      announces the byte. */
  lemma ParametersAreMeantIff(p: Bytes)
    requires Complete(p)
    ensures TakesWhatIsMeant(Tds(p)) <==>
      forall q: Bytes :: SameTdBytes(p, q) ==> T1ParametersOf(q) == MeantParameters(q)
  {
    hide UsedFor, FirstForT1, T1ParametersOf, TdChain, Tds, TdsIndex;
    if TakesWhatIsMeant(Tds(p)) {
      forall q: Bytes | SameTdBytes(p, q) ensures T1ParametersOf(q) == MeantParameters(q) {
        SameTdsSamePlaces(p, q);
        ParametersComeFromUsed(q);
      }
    } else {
      var k := if UsedFor(Tds(p), 0) != FirstForT1(Tds(p), 0) then 0 else 1;
      var q := WrongChoiceShows(p, k);
    }
  }

  /** TD2 and TD3 both name T=1: TA4 replaces TA3. */
  const TWO_GROUPS: Bytes := [0x3B, 0x80, 0x81, 0x91, 0xFE, 0x11, 0x10]

  lemma LaterGroupWins()
    ensures Complete(TWO_GROUPS) && T1ParametersOf(TWO_GROUPS).ifsc == 0x10 && MeantParameters(TWO_GROUPS).ifsc == 0xFE
  {
    hide T1ParametersOf, Scan, Group, UsedGroup, FirstForT1;
    var p, tds := TWO_GROUPS, [0x91, 0x11];
    assert TdChain(p, 0x11, 6) == Some([0x11]);
    ChainStep(p, 0x91, 4, [0x11]);
    assert p[3] == 0x91 && [0x91] + [0x11] == tds;
    ChainFromTd2(p, tds);
    UsedOfOne(0x11);
    UsedOfCons(0x91, [0x11]);
    FirstGroupForT1(0x91, [0x11]);
    ParametersComeFromUsed(p);
    assert GroupStart(tds, 4, 1) == GroupStart(tds[1..], 6, 0);
  }

  /** TD2 names T=1 and TD3 the global bytes (T=15): the walk drops TA3 and TB3. */
  const GLOBAL_BYTES: Bytes := [0x3B, 0x80, 0x81, 0xB1, 0xFE, 0x45, 0x1F, 0xC7]

  lemma GlobalBytesHideT1()
    ensures Complete(GLOBAL_BYTES) && T1ParametersOf(GLOBAL_BYTES) == T1Parameters(32, 4, 13)
    ensures MeantParameters(GLOBAL_BYTES) == T1Parameters(0xFE, 4, 5)
  {
    hide T1ParametersOf, Scan, Group, UsedGroup, FirstForT1;
    var p, tds := GLOBAL_BYTES, [0xB1, 0x1F];
    assert TdChain(p, 0x1F, 7) == Some([0x1F]);
    ChainStep(p, 0xB1, 4, [0x1F]);
    assert p[3] == 0xB1 && [0xB1] + [0x1F] == tds;
    ChainFromTd2(p, tds);
    ChoicesWithGlobalBytes();
    ParametersComeFromUsed(p);
  }

  lemma ChoicesWithGlobalBytes()
    ensures UsedGroup([0xB1, 0x1F]).None?
    ensures FirstForT1([0xB1, 0x1F], 0) == FirstForT1([0xB1, 0x1F], 1) == Some(0)
  {
    hide UsedGroup, FirstForT1;
    assert [0xB1] + [0x1F] == [0xB1, 0x1F];
    UsedOfOne(0x1F);
    UsedOfCons(0xB1, [0x1F]);
    FirstGroupForT1(0xB1, [0x1F]);
  }

  lemma FirstGroupForT1(td: byte, rest: seq<byte>)
    requires td % 16 == 1
    ensures forall k: nat | k < 2 :: Announces(td, k) ==> FirstForT1([td] + rest, k) == Some(0)
  {
    hide Announces;
  }

  /** A group for T=0: its TA3 is taken for IFSC all the same. */
  const GROUP_FOR_T0: Bytes := [0x3B, 0x80, 0x81, 0x10, 0xFE]

  lemma GroupForT0IsUsed()
    ensures Complete(GROUP_FOR_T0) && T1ParametersOf(GROUP_FOR_T0) == T1Parameters(0xFE, 4, 13)
    ensures MeantParameters(GROUP_FOR_T0) == T1Parameters(32, 4, 13)
  {
    hide T1ParametersOf, Scan, Group, UsedGroup, FirstForT1;
    var p, tds := GROUP_FOR_T0, [0x10];
    assert TdChain(p, 0x10, 4) == Some([0x10]) && p[3] == 0x10;
    ChainFromTd2(p, tds);
    UsedOfOne(0x10);
    NoGroupForT1(0x10);
    ParametersComeFromUsed(p);
  }

  lemma NoGroupForT1(td: byte)
    requires td % 16 != 1
    ensures FirstForT1([td], 0).None? && FirstForT1([td], 1).None?
  {
    assert [td][1..] == [];
  }

  lemma ChainStep(p: Bytes, td: byte, index: nat, rest: seq<byte>)
    requires index + Announced(td) <= |p| && Announces(td, 3)
    requires TdChain(p, p[index + Announced(td) - 1], index + Announced(td)) == Some(rest)
    ensures TdChain(p, td, index) == Some([td] + rest)
  {
  }

  lemma ChainFromTd2(p: Bytes, tds: seq<byte>)
    requires |p| >= 4 && p[1] == 0x80 && p[2] == 0x81 && TdChain(p, p[3], 4) == Some(tds) && tds != []
    ensures Complete(p) && Tds(p) == tds && TdsIndex(p) == 4
  {
    ChainStep(p, 0x81, 3, tds);
    ChainStep(p, 0x80, 2, [0x81] + tds);
    var chain := [0x80] + ([0x81] + tds);
    assert chain[2..] == tds && chain[1..][1..] == tds;
    assert GroupStart(chain[1..], 3, 1) == GroupStart(tds, 4, 0);
  }

  // ---------- The early baud rate switch of prot_t1 ----------

  /** The decision as prot_t1 takes it, from its own offset computation. */
  function SwitchesEarly(p: Bytes, F: nat, D: nat): bool
    requires |p| >= 2
    requires (p[1] / 16 / 8) % 2 == 1 ==>
      2 + (p[1] / 16) % 2 + (p[1] / 16 / 2) % 2 + (p[1] / 16 / 4) % 2 < |p|
  {
    if F != 372 || D != 1 then
      var t0 := p[1] / 16;
      if (t0 / 8) % 2 == 1 then
        var offset := 1 + (1 + t0 % 2 + (t0 / 2) % 2 + (t0 / 4) % 2);
        (p[offset] / 16) % 2 == 1
      else false
    else false
  }

  /** Its offset is where the walk finds TD1, so it switches early iff the
      parameters are not the defaults and the walk sees a TA2. */
  lemma SwitchesEarlyIff(p: Bytes, F: nat, D: nat)
    requires Complete(p)
    ensures Announces(p[1], 3) ==> Td1Index(p) < |p|
    ensures (p[1] / 16 / 8) % 2 == 1 ==>
      2 + (p[1] / 16) % 2 + (p[1] / 16 / 2) % 2 + (p[1] / 16 / 4) % 2 == Td1Index(p) < |p|
    ensures SwitchesEarly(p, F, D) <==>
      (F != 372 || D != 1) && Announces(p[1], 3) && Announces(p[Td1Index(p)], 0)
  {
    NibbleBits(p[1]);
  }

  lemma NibbleBits(b: byte)
    ensures (b / 16 / 2) % 2 == (b / 32) % 2
    ensures (b / 16 / 4) % 2 == (b / 64) % 2
    ensures (b / 16 / 8) % 2 == (b / 128) % 2
  {
  }
}
