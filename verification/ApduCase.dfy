/** Which case an APDU header announces: osim_determine_apdu_case and the tables
    of the "UICC+SIM" profile in pico-tunnel/util/iso7816_t0/class_tables.c. */
module ApduCase {
  import opened Bytes

  /** The five bytes CLA INS P1 P2 P3. */
  type Header = h: Bytes | |h| == 5 witness [0, 0, 0, 0, 0]

  datatype Table = Gsm1111 | Uicc80 | Uicc046 | Uicc8ce | Gp8ce
  datatype Helper = NoHelper | Uicc046Helper | GpHelper

  /** An entry applies to the classes that agree with `cla` in the bits of `mask`. */
  datatype Entry = Entry(cla: byte, mask: Mask, helper: Helper, table: Table)
  datatype Mask = AllBits | HighNibble

  const HELPER_DECIDES: byte := 0x80

  function Lookup(t: Table, ins: byte): byte {
    match t
    case Gsm1111 =>
      if ins in {0x04, 0x44, 0xFA} then 1
      else if ins in {0xF2, 0xB0, 0xB2, 0xC0, 0x12} then 2
      else if ins in {0xD6, 0xDC, 0x20, 0x24, 0x26, 0x28, 0x2C, 0x10, 0x14} then 3
      else if ins in {0xA4, 0xA2, 0x32, 0x88, 0xC2} then 4
      else 0
    case Uicc046 =>
      if ins in {0x04, 0x44} then 1
      else if ins in {0xB0, 0xB2, 0x84, 0x70, 0xC0} then 2
      else if ins in {0xD6, 0xDC, 0x20, 0x24, 0x26, 0x28, 0x2C} then 3
      else if ins in {0xA4, 0xA2, 0x88, 0x89} then 4
      else if ins in {0x73, 0x75} then HELPER_DECIDES
      else 0
    case Uicc8ce =>
      if ins == 0xF2 then 2
      else if ins in {0xDB, 0xAA} then 3
      else if ins in {0x32, 0xCB, 0x78} then 4
      else 0
    case Uicc80 =>
      if ins == 0x12 then 2
      else if ins in {0x10, 0x14} then 3
      else if ins in {0xC2, 0x76, 0x7A} then 4
      else 0
    case Gp8ce =>
      if ins == 0xC0 then 2
      else if ins == 0xF0 then 3
      else if ins in {0xE4, 0xCA, 0xCB, 0xF2, 0xE6, 0xE8, 0xD8} then 4
      else if ins == 0xE2 then HELPER_DECIDES
      else 0
  }

  /** The instructions of the Microsoft smart card discovery process. */
  function DiscoveryLookup(ins: byte): byte {
    if ins == 0xA4 then 4 else if ins == 0xCA || ins == 0xC0 then 2 else 0
  }

  /** uicc046_cla_ins_helper */
  function Uicc046Case(h: Header): byte {
    var p1, p2 := h[2], h[3];
    if h[1] == 0x73 then
      if p1 == 0 then 2
      else if p1 % 8 in {1, 2, 3} then
        if p2 == 0x80 || p2 / 32 == 0 then 3
        else if p2 / 32 == 5 || p2 / 32 == 1 then 2
        else 0
      else if p1 % 8 == 4 then 3
      else 0
    else if h[1] == 0x75 then
      if (p1 / 4) % 2 == 1 then 3 else 2
    else 0
  }

  /** gp_cla_ins_helper */
  function GpCase(h: Header): byte {
    if h[1] == 0xE2 then (if h[2] % 2 == 1 then 4 else 3) else 0
  }

  /** Calling a missing helper would be a call through a null pointer. */
  function CallHelper(helper: Helper, h: Header): byte
    requires helper != NoHelper
  {
    match helper
    case Uicc046Helper => Uicc046Case(h)
    case GpHelper => GpCase(h)
  }

  predicate Applies(e: Entry, cla: byte) {
    match e.mask
    case AllBits => cla == e.cla
    case HighNibble => cla - cla % 16 == e.cla
  }

  const UICC_SIM_PROFILE: seq<Entry> := [
    Entry(0xA0, AllBits, NoHelper, Gsm1111),
    Entry(0x80, AllBits, NoHelper, Uicc80),
    Entry(0x00, HighNibble, Uicc046Helper, Uicc046),
    Entry(0x40, HighNibble, Uicc046Helper, Uicc046),
    Entry(0x60, HighNibble, Uicc046Helper, Uicc046),
    Entry(0x80, HighNibble, NoHelper, Uicc8ce),
    Entry(0xC0, HighNibble, NoHelper, Uicc8ce),
    Entry(0xE0, HighNibble, NoHelper, Uicc8ce),
    Entry(0x80, HighNibble, GpHelper, Gp8ce),
    Entry(0xC0, HighNibble, GpHelper, Gp8ce),
    Entry(0xE0, HighNibble, GpHelper, Gp8ce)
  ]

  ghost predicate HelpersPresent(profile: seq<Entry>) {
    forall i, ins: byte :: 0 <= i < |profile| && Lookup(profile[i].table, ins) == HELPER_DECIDES
                           ==> profile[i].helper != NoHelper
  }

  /** An entry settles a header when it applies and lists the instruction. */
  predicate Settles(e: Entry, h: Header) {
    Applies(e, h[0]) && Lookup(e.table, h[1]) != 0
  }

  function EntryCase(e: Entry, h: Header): byte
    requires Lookup(e.table, h[1]) == HELPER_DECIDES ==> e.helper != NoHelper
  {
    if Lookup(e.table, h[1]) == HELPER_DECIDES then CallHelper(e.helper, h) else Lookup(e.table, h[1])
  }

  function FallbackCase(h: Header): byte {
    if h[0] == 0 then DiscoveryLookup(h[1]) else 0
  }

  /** The result is settled by the first entry that settles the header, and by
      the discovery table when none does. */
  ghost predicate IsCase(profile: seq<Entry>, h: Header, c: byte)
    requires HelpersPresent(profile)
  {
    || (exists i :: 0 <= i < |profile| && FirstSettles(profile, h, i) && c == EntryCase(profile[i], h))
    || ((forall i :: 0 <= i < |profile| ==> !Settles(profile[i], h)) && c == FallbackCase(h))
  }

  ghost predicate FirstSettles(profile: seq<Entry>, h: Header, i: nat)
    requires i < |profile|
  {
    Settles(profile[i], h) && forall j :: 0 <= j < i ==> !Settles(profile[j], h)
  }

  method DetermineApduCase(profile: seq<Entry>, h: Header) returns (c: byte)
    requires HelpersPresent(profile)
    ensures IsCase(profile, h, c)
  {
    for i := 0 to |profile|
      invariant forall j :: 0 <= j < i ==> !Settles(profile[j], h)
    {
      var e := profile[i];
      if !Applies(e, h[0]) {
        continue;
      }
      var rc := Lookup(e.table, h[1]);
      if rc == HELPER_DECIDES {
        assert FirstSettles(profile, h, i);
        return CallHelper(e.helper, h);
      } else if rc == 0 {
        continue;
      } else {
        assert FirstSettles(profile, h, i);
        return rc;
      }
    }
    if h[0] == 0 {
      var rc := DiscoveryLookup(h[1]);
      if rc != 0 {
        return rc;
      }
    }
    return 0;
  }

  lemma UiccSimHelpersPresent()
    ensures HelpersPresent(UICC_SIM_PROFILE)
  {
  }

  /** The case as a function: the entries from `i` on, then the fallback. */
  function CaseFrom(profile: seq<Entry>, h: Header, i: nat): (c: byte)
    requires HelpersPresent(profile) && i <= |profile|
    decreases |profile| - i
  {
    if i == |profile| then FallbackCase(h)
    else if Settles(profile[i], h) then EntryCase(profile[i], h)
    else CaseFrom(profile, h, i + 1)
  }

  lemma {:induction false} CaseFromIff(profile: seq<Entry>, h: Header, i: nat, c: byte)
    requires HelpersPresent(profile) && i <= |profile|
    requires forall j :: 0 <= j < i ==> !Settles(profile[j], h)
    ensures IsCase(profile, h, c) <==> c == CaseFrom(profile, h, i)
    decreases |profile| - i
  {
    if i < |profile| {
      if Settles(profile[i], h) {
        assert FirstSettles(profile, h, i);
        forall k | 0 <= k < |profile| && FirstSettles(profile, h, k) ensures k == i {
        }
      } else {
        CaseFromIff(profile, h, i + 1, c);
      }
    }
  }

  function UiccSimCase(h: Header): byte {
    UiccSimHelpersPresent();
    CaseFrom(UICC_SIM_PROFILE, h, 0)
  }

  /** Every header has exactly one case, one of 1 to 4 or 0 for "unknown". */
  lemma UiccSimCaseIff(h: Header, c: byte)
    requires HelpersPresent(UICC_SIM_PROFILE)
    ensures IsCase(UICC_SIM_PROFILE, h, c) <==> c == UiccSimCase(h)
  {
    CaseFromIff(UICC_SIM_PROFILE, h, 0, c);
  }

  lemma {:induction false} CaseInRange(profile: seq<Entry>, h: Header, i: nat)
    requires HelpersPresent(profile) && i <= |profile|
    ensures CaseFrom(profile, h, i) <= 4
    decreases |profile| - i
  {
    if i < |profile| {
      CaseInRange(profile, h, i + 1);
    }
  }

  /** GET RESPONSE never carries command data, whatever the class byte. */
  lemma {:induction false} GetResponseHasNoCommandData(profile: seq<Entry>, h: Header, i: nat)
    requires HelpersPresent(profile) && i <= |profile| && h[1] == 0xC0
    ensures CaseFrom(profile, h, i) in {0, 2}
    decreases |profile| - i
  {
    if i < |profile| {
      GetResponseHasNoCommandData(profile, h, i + 1);
    }
  }

  /** The case does not depend on P3. */
  lemma {:induction false} CaseIgnoresP3(profile: seq<Entry>, h: Header, h': Header, i: nat)
    requires HelpersPresent(profile) && i <= |profile| && h[..4] == h'[..4]
    ensures CaseFrom(profile, h, i) == CaseFrom(profile, h', i)
    decreases |profile| - i
  {
    assert h[0] == h[..4][0] && h[1] == h[..4][1] && h[2] == h[..4][2] && h[3] == h[..4][3];
    assert h'[0] == h'[..4][0] && h'[1] == h'[..4][1] && h'[2] == h'[..4][2] && h'[3] == h'[..4][3];
    if i < |profile| {
      CaseIgnoresP3(profile, h, h', i + 1);
    }
  }

  // ---------- The cases as sets of instructions ----------

  /** CLA 0x, 4x and 6x, and CLA 8x, Cx and Ex, of ETSI TS 102 221. */
  predicate Interindustry(cla: byte) {
    cla / 16 in {0x0, 0x4, 0x6}
  }

  predicate Proprietary(cla: byte) {
    cla / 16 in {0x8, 0xC, 0xE}
  }

  /** No data: DEACTIVATE and ACTIVATE FILE (or INVALIDATE and REHABILITATE), SLEEP. */
  predicate HasCase1(h: Header) {
    || ((h[0] == 0xA0 || Interindustry(h[0])) && h[1] in {0x04, 0x44})
    || (h[0] == 0xA0 && h[1] == 0xFA)
  }

  /** MANAGE SECURE CHANNEL with response data, and with command data. */
  predicate ChannelResponds(p1: byte, p2: byte) {
    p1 == 0 || (p1 % 8 in {1, 2, 3} && p2 / 32 in {1, 5})
  }

  predicate ChannelSends(p1: byte, p2: byte) {
    (p1 % 8 in {1, 2, 3} && (p2 < 32 || p2 == 0x80)) || p1 % 8 == 4
  }

  /** P3 = Le: data from the card. */
  predicate HasCase2(h: Header) {
    || (h[0] == 0xA0 && h[1] in {0xF2, 0xB0, 0xB2, 0xC0, 0x12})
    || (Interindustry(h[0]) && h[1] in {0xB0, 0xB2, 0x84, 0x70, 0xC0})
    || (Interindustry(h[0]) && h[1] == 0x73 && ChannelResponds(h[2], h[3]))
    || (Interindustry(h[0]) && h[1] == 0x75 && (h[2] / 4) % 2 == 0)
    || (h[0] == 0x00 && h[1] == 0xCA)
    || (Proprietary(h[0]) && h[1] in {0xF2, 0xC0})
    || (h[0] == 0x80 && h[1] == 0x12)
  }

  /** P3 = Lc: data to the card. */
  predicate HasCase3(h: Header) {
    || ((h[0] == 0xA0 || Interindustry(h[0])) && h[1] in {0xD6, 0xDC, 0x20, 0x24, 0x26, 0x28, 0x2C})
    || ((h[0] == 0xA0 || h[0] == 0x80) && h[1] in {0x10, 0x14})
    || (Interindustry(h[0]) && h[1] == 0x73 && ChannelSends(h[2], h[3]))
    || (Interindustry(h[0]) && h[1] == 0x75 && (h[2] / 4) % 2 == 1)
    || (Proprietary(h[0]) && h[1] in {0xDB, 0xAA, 0xF0})
    || (Proprietary(h[0]) && h[1] == 0xE2 && h[2] % 2 == 0)
  }

  /** P3 = Lc, and data from the card behind it. */
  predicate HasCase4(h: Header) {
    || (h[0] == 0xA0 && h[1] in {0xA4, 0xA2, 0x32, 0x88, 0xC2})
    || (Interindustry(h[0]) && h[1] in {0xA4, 0xA2, 0x88, 0x89})
    || (Proprietary(h[0]) && h[1] in {0x32, 0xCB, 0x78, 0xE4, 0xCA, 0xE6, 0xE8, 0xD8})
    || (Proprietary(h[0]) && h[1] == 0xE2 && h[2] % 2 == 1)
    || (h[0] == 0x80 && h[1] in {0xC2, 0x76, 0x7A})
  }

  function CaseBySets(h: Header): byte {
    if HasCase1(h) then 1 else if HasCase2(h) then 2 else if HasCase3(h) then 3 else if HasCase4(h) then 4 else 0
  }

  lemma SetsAreApart(h: Header)
    ensures CaseBySets(h) == 1 <==> HasCase1(h)
    ensures CaseBySets(h) == 2 <==> HasCase2(h)
    ensures CaseBySets(h) == 3 <==> HasCase3(h)
    ensures CaseBySets(h) == 4 <==> HasCase4(h)
  {
  }

  /** The walk over the profile, from entry `i` on. */
  lemma CaseSkips(h: Header, i: nat, j: nat)
    requires i <= j <= |UICC_SIM_PROFILE| && HelpersPresent(UICC_SIM_PROFILE)
    requires forall k :: i <= k < j ==> !Applies(UICC_SIM_PROFILE[k], h[0])
    ensures CaseFrom(UICC_SIM_PROFILE, h, i) == CaseFrom(UICC_SIM_PROFILE, h, j)
    decreases j - i
  {
    hide Lookup, EntryCase, FallbackCase;
    if i < j {
      assert !Applies(UICC_SIM_PROFILE[i], h[0]);
      CaseSkips(h, i + 1, j);
    }
  }

  lemma CaseAt(h: Header, i: nat)
    requires i < |UICC_SIM_PROFILE| && HelpersPresent(UICC_SIM_PROFILE) && Applies(UICC_SIM_PROFILE[i], h[0])
    ensures CaseFrom(UICC_SIM_PROFILE, h, i)
         == if Lookup(UICC_SIM_PROFILE[i].table, h[1]) != 0 then EntryCase(UICC_SIM_PROFILE[i], h)
            else CaseFrom(UICC_SIM_PROFILE, h, i + 1)
  {
    hide Lookup, EntryCase, FallbackCase;
  }

  lemma SimClass(h: Header)
    requires h[0] == 0xA0
    ensures UiccSimCase(h) == CaseBySets(h)
  {
    UiccSimHelpersPresent();
    CaseAt(h, 0);
    CaseSkips(h, 1, |UICC_SIM_PROFILE|);
    assert !Interindustry(h[0]) && !Proprietary(h[0]);
  }

  lemma InterindustryClass(h: Header)
    requires Interindustry(h[0])
    ensures UiccSimCase(h) == CaseBySets(h)
  {
    UiccSimHelpersPresent();
    var i := if h[0] / 16 == 0 then 2 else if h[0] / 16 == 4 then 3 else 4;
    CaseSkips(h, 0, i);
    CaseAt(h, i);
    CaseSkips(h, i + 1, |UICC_SIM_PROFILE|);
    assert !Proprietary(h[0]) && h[0] != 0xA0;
  }

  /** The two entries that apply to a proprietary class. */
  lemma ProprietaryEntries(h: Header, i: nat)
    requires Proprietary(h[0]) && i == (if h[0] / 16 == 8 then 5 else if h[0] / 16 == 0xC then 6 else 7)
    requires HelpersPresent(UICC_SIM_PROFILE)
    ensures CaseFrom(UICC_SIM_PROFILE, h, i)
         == if Lookup(Uicc8ce, h[1]) != 0 then Lookup(Uicc8ce, h[1])
            else if Lookup(Gp8ce, h[1]) == HELPER_DECIDES then GpCase(h)
            else Lookup(Gp8ce, h[1])
  {
    hide GpCase;
    CaseAt(h, i);
    CaseSkips(h, i + 1, i + 3);
    CaseAt(h, i + 3);
    CaseSkips(h, i + 4, |UICC_SIM_PROFILE|);
  }

  lemma ProprietaryClass(h: Header)
    requires Proprietary(h[0])
    ensures UiccSimCase(h) == CaseBySets(h)
  {
    UiccSimHelpersPresent();
    var i := if h[0] / 16 == 8 then 5 else if h[0] / 16 == 0xC then 6 else 7;
    ProprietaryEntries(h, i);
    if h[0] == 0x80 {
      CaseSkips(h, 0, 1);
      CaseAt(h, 1);
      CaseSkips(h, 2, i);
    } else {
      CaseSkips(h, 0, i);
    }
    hide CaseFrom, Applies;
    assert !Interindustry(h[0]) && h[0] != 0xA0 && h[0] != 0;
  }

  lemma OtherClass(h: Header)
    requires h[0] != 0xA0 && !Interindustry(h[0]) && !Proprietary(h[0])
    ensures UiccSimCase(h) == CaseBySets(h)
  {
    UiccSimHelpersPresent();
    CaseSkips(h, 0, |UICC_SIM_PROFILE|);
  }

  /** For every header the walk finds exactly the case whose set of class,
      instruction, P1 and P2 it is in, and 0 when it is in none. */
  lemma CaseSets(h: Header)
    ensures UiccSimCase(h) == 1 <==> HasCase1(h)
    ensures UiccSimCase(h) == 2 <==> HasCase2(h)
    ensures UiccSimCase(h) == 3 <==> HasCase3(h)
    ensures UiccSimCase(h) == 4 <==> HasCase4(h)
    ensures UiccSimCase(h) <= 4
  {
    hide UiccSimCase;
    SetsAreApart(h);
    if h[0] == 0xA0 {
      SimClass(h);
    } else if Interindustry(h[0]) {
      InterindustryClass(h);
    } else if Proprietary(h[0]) {
      ProprietaryClass(h);
    } else {
      OtherClass(h);
    }
  }
}
