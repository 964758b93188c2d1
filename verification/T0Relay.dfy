/** The T=0 relay of `prot_t0` in pico-tunnel/pico_poc.c: it turns whole card
    responses into the procedure bytes and status bytes of section 10.3 of
    ISO/IEC 7816-3, with a cache for responses the terminal has to fetch. */
module T0Relay {
  import opened Bytes
  import opened ApduCase

  const GET_RESPONSE: byte := 0xC0
  const SW_LEN := 2
  const APDU_BUFFER_LEN := 1024

  /** A response as the USB side delivers it. */
  type Response = r: Bytes | |r| <= APDU_BUFFER_LEN witness []

  /** The far side: what it answers to the last of the APDUs forwarded so far. */
  type Remote = seq<Bytes> -> Response

  // ---------- The relay as a function ----------

  /** `le`: the response length the relay expects, status word included. */
  function ExpectedLen(h: Header): nat {
    if UiccSimCase(h) == 2 then SW_LEN + (if h[4] == 0 then 256 else h[4]) else SW_LEN
  }

  /** `lc`: how many command data bytes the terminal sends. */
  function CommandDataLen(h: Header): nat {
    if UiccSimCase(h) in {3, 4} then h[4] else 0
  }

  /** A command with as much data as its header announces. */
  datatype Command = Command(header: Header, data: Bytes) {
    ghost predicate Valid() {
      |data| == CommandDataLen(header)
    }

    function Apdu(): Bytes {
      header + data
    }

    function Ins(): byte {
      header[1]
    }
  }

  /** The length of the cache is kept in eight bits. */
  function CachedPart(r: Response): Bytes {
    r[..|r| % 256]
  }

  /** What the terminal sees of a response to a forwarded command. */
  function Delivered(h: Header, r: Response): Bytes {
    if |r| == SW_LEN then r
    else if |r| == ExpectedLen(h) then [h[1]] + r
    else [if |r| > ExpectedLen(h) then 0x61 else 0x6C, (|r| - SW_LEN) % 256]
  }

  predicate IsCached(h: Header, r: Response) {
    |r| != SW_LEN && |r| != ExpectedLen(h)
  }

  /** The cache and the APDUs forwarded so far. */
  datatype RelayState = RelayState(cached: Bytes, forwarded: seq<Bytes>)

  /** One pass through the command loop: the relay's bytes and its new state. */
  function ExchangeOf(st: RelayState, remote: Remote, c: Command): (Bytes, RelayState) {
    var procedure := if CommandDataLen(c.header) > 0 then [c.Ins()] else [];
    if st.cached != [] && c.Ins() == GET_RESPONSE then (procedure + ([c.Ins()] + st.cached), st)
    else
      var forwarded := st.forwarded + [c.Apdu()];
      var r := remote(forwarded);
      (procedure + Delivered(c.header, r), RelayState(if IsCached(c.header, r) then CachedPart(r) else [], forwarded))
  }

  // ---------- The relay as the firmware runs it ----------

  class Relay {
    const responseCache: array<byte>
    var lenResponseCache: byte
    var toTerminal: Bytes
    var forwarded: seq<Bytes>

    ghost predicate Valid()
      reads this
    {
      responseCache.Length == APDU_BUFFER_LEN
    }

    ghost function State(): RelayState
      requires Valid()
      reads this, responseCache
    {
      RelayState(responseCache[..lenResponseCache], forwarded)
    }

    constructor ()
      ensures Valid() && fresh(responseCache)
      ensures State() == RelayState([], []) && toTerminal == []
    {
      responseCache := new byte[APDU_BUFFER_LEN];
      lenResponseCache, toTerminal, forwarded := 0, [], [];
    }

    method WriteUart(bs: Bytes)
      modifies this`toTerminal
      ensures toTerminal == old(toTerminal) + bs
    {
      toTerminal := toTerminal + bs;
    }

    /** One pass through the loop. The line is half duplex: the terminal sends
        the header, and the data only after the procedure byte. */
    method HandleCommand(remote: Remote, c: Command)
      requires Valid() && c.Valid()
      modifies this`lenResponseCache, this`toTerminal, this`forwarded, responseCache
      ensures Valid()
      ensures var (reply, st) := ExchangeOf(old(State()), remote, c);
        toTerminal == old(toTerminal) + reply && State() == st
      ensures forwarded == if old(State()).cached != [] && c.header[1] == 0xC0 then old(forwarded)
                           else old(forwarded) + [c.header + c.data]
    {
      hide UiccSimCase, Delivered, CachedPart, IsCached;
      ghost var procedure := if CommandDataLen(c.header) > 0 then [c.Ins()] else [];
      var h := c.header;
      var le, lc := SW_LEN, 0;
      var apduCase := DetermineCase(h);
      var p3: nat := h[4];
      var procByte := h[1];
      if apduCase == 2 {
        le := le + p3;
        if p3 == 0 {
          le := le + 256;
        }
      } else if apduCase == 3 || apduCase == 4 {
        lc := p3;
        if lc > 0 {
          WriteUart([procByte]);
        }
      }
      assert le == ExpectedLen(h) && lc == CommandDataLen(h);
      assert toTerminal == old(toTerminal) + procedure;
      if lenResponseCache > 0 && procByte == GET_RESPONSE {
        WriteUart([procByte]);
        WriteUart(responseCache[..lenResponseCache]);
        assert toTerminal == old(toTerminal) + (procedure + ([procByte] + responseCache[..lenResponseCache]));
        return;
      }
      lenResponseCache := 0;
      forwarded := forwarded + [h + c.data];
      var r := remote(forwarded);
      DeliverResponse(h, le, r);
      assert toTerminal == old(toTerminal) + (procedure + Delivered(h, r));
    }

    /** The end of a pass: pass on a status word or a response of the expected
        length, and keep any other response for later. */
    method DeliverResponse(h: Header, le: nat, r: Response)
      requires Valid() && le == ExpectedLen(h) && lenResponseCache == 0
      modifies this`lenResponseCache, this`toTerminal, responseCache
      ensures Valid() && toTerminal == old(toTerminal) + Delivered(h, r)
      ensures responseCache[..lenResponseCache] == if IsCached(h, r) then CachedPart(r) else []
    {
      hide ExpectedLen;
      if |r| == SW_LEN {
        WriteUart(r);
      } else if |r| == le {
        WriteUart([h[1]]);
        WriteUart(r);
        assert toTerminal == old(toTerminal) + ([h[1]] + r);
      } else {
        lenResponseCache := |r| % 256;
        forall i | 0 <= i < |r| {
          responseCache[i] := r[i];
        }
        assert responseCache[..lenResponseCache] == CachedPart(r);
        WriteUart([if |r| > le then 0x61 else 0x6C, (|r| - SW_LEN) % 256]);
      }
    }

    method DetermineCase(h: Header) returns (c: byte)
      ensures c == UiccSimCase(h)
    {
      UiccSimHelpersPresent();
      c := DetermineApduCase(UICC_SIM_PROFILE, h);
      UiccSimCaseIff(h, c);
    }
  }

  // ---------- A terminal of section 10.3 ----------

  /** Data and status word. */
  datatype Outcome = Outcome(data: Bytes, sw: Bytes)

  /** How many data bytes P3 asks for. */
  function RequestedLen(c: Command): nat {
    if c.header[4] == 0 then 256 else c.header[4]
  }

  /** How a terminal reads the relay's bytes. A first byte equal to INS is a
      procedure byte: the terminal sends its data, or takes as many bytes as P3
      announces; any other first byte begins the status word. */
  function Understand(c: Command, reply: Bytes): Option<Outcome> {
    if reply == [] then None
    else if reply[0] != c.Ins() then (if |reply| == SW_LEN then Some(Outcome([], reply)) else None)
    else if c.data != [] then (if |reply| == 1 + SW_LEN then Some(Outcome([], reply[1..])) else None)
    else
      var n := RequestedLen(c);
      if |reply| == 1 + n + SW_LEN then Some(Outcome(reply[1..1 + n], reply[1 + n..])) else None
  }

  function GetResponseFor(c: Command, length: byte): Command {
    Command([c.header[0], GET_RESPONSE, 0, 0, length], [])
  }

  function Reissued(c: Command, length: byte): Command {
    Command(c.header[4 := length], c.data)
  }

  /** The terminal answers a bare 61xx with GET RESPONSE and a bare 6Cxx by
      issuing the command again with P3 = xx. */
  function TransactOf(st: RelayState, remote: Remote, c: Command): (Option<Outcome>, RelayState) {
    var (reply, st') := ExchangeOf(st, remote, c);
    match Understand(c, reply)
    case None => (None, st')
    case Some(o) =>
      if o.data == [] && |o.sw| == SW_LEN && o.sw[0] == 0x61 then
        FollowUp(st', remote, GetResponseFor(c, o.sw[1]))
      else if o.data == [] && |o.sw| == SW_LEN && o.sw[0] == 0x6C then
        FollowUp(st', remote, Reissued(c, o.sw[1]))
      else (Some(o), st')
  }

  function FollowUp(st: RelayState, remote: Remote, c: Command): (Option<Outcome>, RelayState) {
    var (reply, st') := ExchangeOf(st, remote, c);
    (Understand(c, reply), st')
  }

  // ---------- What the terminal ends up with ----------

  /** INS values 6X and 9X are not allowed, because status words begin with them. */
  ghost predicate ValidIns(ins: byte) {
    ins / 16 != 6 && ins / 16 != 9
  }

  ghost predicate ValidStatus(sw1: byte) {
    sw1 / 16 == 6 || sw1 / 16 == 9
  }

  /** A final card response: data and a status word; a response without data
      must not itself ask for a follow-up. */
  ghost predicate FinalResponse(r: Response) {
    && |r| >= SW_LEN && ValidStatus(r[|r| - SW_LEN])
    && (|r| == SW_LEN ==> r[0] != 0x61 && r[0] != 0x6C)
  }

  ghost predicate Legal(c: Command) {
    c.Valid() && ValidIns(c.Ins())
  }

  /** The relay answers from its cache: GET RESPONSE while the cache is filled. */
  predicate ReadsCache(cached: Bytes, c: Command) {
    cached != [] && c.Ins() == GET_RESPONSE
  }

  /** The command reaches the card. */
  ghost predicate IsFresh(st: RelayState, c: Command) {
    Legal(c) && !ReadsCache(st.cached, c)
  }

  ghost function CardOutcome(r: Response): Outcome
    requires |r| >= SW_LEN
  {
    Outcome(r[..|r| - SW_LEN], r[|r| - SW_LEN..])
  }

  /** The card answers `c` with `r`; when P3 was too large it gives the same
      answer to the command with the right P3. */
  ghost predicate Answers(remote: Remote, st: RelayState, c: Command, r: Response) {
    var sent := st.forwarded + [c.Apdu()];
    && remote(sent) == r
    && (|r| < ExpectedLen(c.header) ==> remote(sent + [Reissued(c, (|r| - SW_LEN) % 256).Apdu()]) == r)
  }

  lemma ReissueKeepsCase(c: Command, length: byte)
    ensures UiccSimCase(Reissued(c, length).header) == UiccSimCase(c.header)
  {
    UiccSimHelpersPresent();
    CaseIgnoresP3(UICC_SIM_PROFILE, Reissued(c, length).header, c.header, 0);
  }

  lemma GetResponseAlone(g: Command)
    requires g.Ins() == GET_RESPONSE
    ensures CommandDataLen(g.header) == 0
  {
    UiccSimHelpersPresent();
    GetResponseHasNoCommandData(UICC_SIM_PROFILE, g.header, 0);
  }

  /** A bare status word passes unchanged, also one that asks for a follow-up. */
  lemma StatusPasses(st: RelayState, remote: Remote, c: Command)
    requires IsFresh(st, c)
    requires var r := remote(st.forwarded + [c.Apdu()]); |r| == SW_LEN && ValidStatus(r[0])
    ensures Understand(c, ExchangeOf(st, remote, c).0) == Some(Outcome([], remote(st.forwarded + [c.Apdu()])))
  {
    var r := remote(st.forwarded + [c.Apdu()]);
    assert ([c.Ins()] + r)[1..] == r;
    assert [] + r == r;
  }

  lemma BehindProcedureByte(ins: byte, r: Bytes, n: nat)
    requires n <= |r|
    ensures ([ins] + r)[1..1 + n] == r[..n] && ([ins] + r)[1 + n..] == r[n..]
  {
  }

  lemma ExactLengthDelivered(st: RelayState, remote: Remote, c: Command, r: Response)
    requires IsFresh(st, c) && remote(st.forwarded + [c.Apdu()]) == r
    requires |r| == ExpectedLen(c.header) && |r| > SW_LEN
    ensures Understand(c, ExchangeOf(st, remote, c).0) == Some(CardOutcome(r))
  {
    hide UiccSimCase;
    var n := |r| - SW_LEN;
    var reply := [c.Ins()] + r;
    assert [] + reply == reply;
    BehindProcedureByte(c.Ins(), r, n);
  }

  lemma FetchedLater(st: RelayState, remote: Remote, c: Command, r: Response)
    requires IsFresh(st, c) && Answers(remote, st, c, r)
    requires FinalResponse(r) && |r| > ExpectedLen(c.header) && |r| <= 255
    ensures TransactOf(st, remote, c) == (Some(CardOutcome(r)), RelayState(r, st.forwarded + [c.Apdu()]))
  {
    hide UiccSimCase;
    var n := |r| - SW_LEN;
    var (reply, st') := ExchangeOf(st, remote, c);
    StatusBytes(c, 0x61, n);
    assert Understand(c, reply) == Some(Outcome([], [0x61, n]));
    GetResponseAlone(GetResponseFor(c, n));
    assert st'.cached == r;
    ServedFromCache(st', remote, GetResponseFor(c, n), r);
  }

  lemma ServedFromCache(st: RelayState, remote: Remote, g: Command, r: Response)
    requires g.Ins() == GET_RESPONSE && g.data == [] && CommandDataLen(g.header) == 0
    requires SW_LEN < |r| <= 257 && g.header[4] as nat == |r| - SW_LEN && st.cached == r
    ensures FollowUp(st, remote, g) == (Some(CardOutcome(r)), st)
  {
    hide UiccSimCase, CommandDataLen;
    var reply := [GET_RESPONSE] + r;
    assert [] + reply == reply;
    BehindProcedureByte(GET_RESPONSE, r, |r| - SW_LEN);
  }

  /** What a transaction leaves in the cache when the response reaches the
      terminal, and what it forwards. */
  function AfterOf(st: RelayState, c: Command, r: Response): RelayState {
    var le := ExpectedLen(c.header);
    var sent := st.forwarded + [c.Apdu()];
    if ReadsCache(st.cached, c) then st
    else if |r| == SW_LEN || |r| == le then RelayState([], sent)
    else if |r| > le || (c.Ins() == GET_RESPONSE && |r| < 256) then RelayState(r, sent)
    else RelayState([], sent + [Reissued(c, (|r| - SW_LEN) % 256).Apdu()])
  }

  /** Status bytes of the relay's own making, behind the procedure byte if any. */
  lemma StatusBytes(c: Command, sw1: byte, sw2: byte)
    requires c.Valid() && ValidIns(c.Ins()) && (sw1 == 0x61 || sw1 == 0x6C)
    ensures var procedure := if CommandDataLen(c.header) > 0 then [c.Ins()] else [];
      Understand(c, procedure + [sw1, sw2]) == Some(Outcome([], [sw1, sw2]))
  {
    hide UiccSimCase;
    assert ([c.Ins()] + [sw1, sw2])[1..] == [sw1, sw2];
    assert [] + [sw1, sw2] == [sw1, sw2];
  }

  /** The first half: the relay asks for the right length. */
  lemma AskedForRightLength(st: RelayState, remote: Remote, c: Command, r: Response)
    requires IsFresh(st, c) && Answers(remote, st, c, r)
    requires FinalResponse(r) && SW_LEN < |r| < ExpectedLen(c.header)
    ensures var st' := RelayState(CachedPart(r), st.forwarded + [c.Apdu()]);
      var again := Reissued(c, |r| - SW_LEN);
      && c.data == [] && |r| <= 257 && ExpectedLen(again.header) == |r| && again.Ins() == c.Ins() && again.Valid()
      && TransactOf(st, remote, c) == FollowUp(st', remote, again)
  {
    hide UiccSimCase;
    var n := |r| - SW_LEN;
    assert UiccSimCase(c.header) == 2;
    StatusBytes(c, 0x6C, n);
    assert ExchangeOf(st, remote, c).0 == [] + [0x6C, n];
    assert Understand(c, [] + [0x6C, n]) == Some(Outcome([], [0x6C, n]));
    ReissueKeepsCase(c, n);
  }

  lemma ReissuedWithRightLength(st: RelayState, remote: Remote, c: Command, r: Response)
    requires IsFresh(st, c) && Answers(remote, st, c, r)
    requires FinalResponse(r) && SW_LEN < |r| < ExpectedLen(c.header)
    ensures TransactOf(st, remote, c).0 == Some(CardOutcome(r)) <==> c.Ins() != GET_RESPONSE || |r| != 257
    ensures c.Ins() != GET_RESPONSE || |r| != 257 ==> TransactOf(st, remote, c).1 == AfterOf(st, c, r)
  {
    hide UiccSimCase, ExpectedLen, CommandDataLen, TransactOf;
    AskedForRightLength(st, remote, c, r);
    var st' := RelayState(CachedPart(r), st.forwarded + [c.Apdu()]);
    var again := Reissued(c, |r| - SW_LEN);
    if ReadsCache(st'.cached, again) {
      CacheHidesReissue(st', remote, again, r);
    } else {
      ExactLengthDelivered(st', remote, again, r);
      assert ExchangeOf(st', remote, again).1 == RelayState([], st'.forwarded + [again.Apdu()]);
    }
  }

  lemma CacheHidesReissue(st: RelayState, remote: Remote, g: Command, r: Response)
    requires Legal(g) && ReadsCache(st.cached, g) && g.data == [] && SW_LEN < |r| <= 257
    requires st.cached == CachedPart(r) && g.header[4] == |r| - SW_LEN
    ensures FollowUp(st, remote, g).0 == Some(CardOutcome(r)) <==> |r| != 257
    ensures FollowUp(st, remote, g).1 == st
  {
    GetResponseAlone(g);
    hide UiccSimCase, CommandDataLen;
    var reply := [GET_RESPONSE] + st.cached;
    assert [] + reply == reply;
    if |r| != 257 {
      ServedFromCache(st, remote, g, r);
    }
  }

  /** Which responses reach the terminal unchanged. */
  predicate Deliverable(c: Command, len: nat) {
    var le := ExpectedLen(c.header);
    || len == SW_LEN
    || len == le
    || (len > le && len <= 255)
    || (len < le && (c.Ins() != GET_RESPONSE || len != 257))
  }

  /** Every response up to 255 bytes is deliverable, and so is one of the
      expected length, 258 bytes at most. */
  lemma ShortResponsesAreDeliverable(c: Command, len: nat)
    requires 2 <= len <= 255 || len == ExpectedLen(c.header)
    ensures Deliverable(c, len) && ExpectedLen(c.header) <= 258
  {
  }

  /** A command that reads the cache never reaches the card: whatever the card
      would answer, the terminal is served the old response once more. */
  lemma CacheHidesCard(st: RelayState, remote: Remote, c: Command)
    requires Legal(c) && ReadsCache(st.cached, c)
    ensures ExchangeOf(st, remote, c) == ([GET_RESPONSE] + st.cached, st)
    ensures var n := RequestedLen(c);
      TransactOf(st, remote, c)
      == (if |st.cached| == n + SW_LEN then Some(Outcome(st.cached[..n], st.cached[n..])) else None, st)
  {
    GetResponseAlone(c);
    hide UiccSimCase;
    var reply := [GET_RESPONSE] + st.cached;
    assert [] + reply == reply;
    if |st.cached| == RequestedLen(c) + SW_LEN {
      BehindProcedureByte(GET_RESPONSE, st.cached, RequestedLen(c));
    }
  }

  /** The terminal gets the card's answer although the cache may be read: then
      it has to hold that very answer, of the length asked for. */
  predicate CacheAgrees(cached: Bytes, c: Command, r: Response) {
    ReadsCache(cached, c) ==> cached == r && |r| == RequestedLen(c) + SW_LEN
  }

  /** The relay preserves meaning: a terminal that follows 61xx and 6Cxx ends up
      with exactly the card's data and status word, iff the command does not read
      a cache that holds something else. */
  lemma RelayPreserves(st: RelayState, remote: Remote, c: Command, r: Response)
    requires Legal(c) && Answers(remote, st, c, r) && FinalResponse(r) && Deliverable(c, |r|)
    ensures TransactOf(st, remote, c).0 == Some(CardOutcome(r)) <==> CacheAgrees(st.cached, c, r)
    ensures TransactOf(st, remote, c).1 == AfterOf(st, c, r)
  {
    hide UiccSimCase;
    if ReadsCache(st.cached, c) {
      CacheHidesCard(st, remote, c);
      SameOutcome(st.cached, r, RequestedLen(c));
    } else if |r| == SW_LEN {
      StatusPasses(st, remote, c);
      assert r[..0] == [] && r[0..] == r;
    } else if |r| == ExpectedLen(c.header) {
      ExactLengthDelivered(st, remote, c, r);
      assert |CardOutcome(r).data| > 0;
    } else if |r| > ExpectedLen(c.header) {
      FetchedLater(st, remote, c, r);
    } else {
      ReissuedWithRightLength(st, remote, c, r);
    }
  }

  lemma SameOutcome(cached: Bytes, r: Response, n: nat)
    requires |r| >= SW_LEN
    ensures |cached| == n + SW_LEN ==> (Outcome(cached[..n], cached[n..]) == CardOutcome(r) <==> cached == r)
  {
    if |cached| == n + SW_LEN && Outcome(cached[..n], cached[n..]) == CardOutcome(r) {
      assert cached == cached[..n] + cached[n..];
      assert r == r[..|r| - SW_LEN] + r[|r| - SW_LEN..];
    }
  }

  /** A far side that answers nothing but `c`, and `c` again, with `r`. */
  function OnlyAnswers(st: RelayState, c: Command, r: Response): Remote {
    var sent := st.forwarded + [c.Apdu()];
    var again := sent + [Reissued(c, (|r| - SW_LEN) % 256).Apdu()];
    (apdus: seq<Bytes>) =>
      if apdus == sent || (apdus == again && |r| < ExpectedLen(c.header)) then r else [0x6D, 0x00]
  }

  lemma LongResponseIsLost(st: RelayState, c: Command, r: Response)
    requires IsFresh(st, c) && FinalResponse(r) && |r| > ExpectedLen(c.header) && |r| > 255
    ensures TransactOf(st, OnlyAnswers(st, c, r), c).0 != Some(CardOutcome(r))
  {
    hide UiccSimCase, ExpectedLen, CommandDataLen;
    var remote := OnlyAnswers(st, c, r);
    var n := (|r| - SW_LEN) % 256;
    var (reply, st') := ExchangeOf(st, remote, c);
    StatusBytes(c, 0x61, n);
    assert Understand(c, reply) == Some(Outcome([], [0x61, n]));
    var g := GetResponseFor(c, n);
    GetResponseAlone(GetResponseFor(c, n));
    if st'.cached != [] {
      CacheIsShort(st', remote, g);
    } else {
      var sent := st.forwarded + [c.Apdu()];
      assert |sent + [g.Apdu()]| > |sent|;
      assert remote(sent + [g.Apdu()]) == [0x6D, 0x00];
      assert Delivered(g.header, [0x6D, 0x00]) == [0x6D, 0x00];
    }
  }

  /** The cache never gives the terminal more than 253 data bytes. */
  lemma CacheIsShort(st: RelayState, remote: Remote, g: Command)
    requires g.Ins() == GET_RESPONSE && CommandDataLen(g.header) == 0 && 0 < |st.cached| < 256
    ensures var o := Understand(g, ExchangeOf(st, remote, g).0); o.Some? ==> |o.value.data| <= 253
  {
    hide UiccSimCase, CommandDataLen;
    var reply := [GET_RESPONSE] + st.cached;
    assert [] + reply == reply;
  }

  /** Exactly these responses reach the terminal with every card. */
  lemma RelayPreservesIff(st: RelayState, c: Command, r: Response)
    requires Legal(c) && FinalResponse(r)
    ensures (forall remote: Remote :: Answers(remote, st, c, r) ==> TransactOf(st, remote, c).0 == Some(CardOutcome(r)))
       <==> if ReadsCache(st.cached, c) then CacheAgrees(st.cached, c, r) else Deliverable(c, |r|)
  {
    hide UiccSimCase, TransactOf, Deliverable;
    if ReadsCache(st.cached, c) {
      OnlyAnswersAnswers(st, c, r);
      forall remote: Remote
        ensures TransactOf(st, remote, c).0 == Some(CardOutcome(r)) <==> CacheAgrees(st.cached, c, r)
      {
        CacheHidesCard(st, remote, c);
        SameOutcome(st.cached, r, RequestedLen(c));
      }
    } else if Deliverable(c, |r|) {
      forall remote: Remote | Answers(remote, st, c, r)
        ensures TransactOf(st, remote, c).0 == Some(CardOutcome(r))
      {
        RelayPreserves(st, remote, c, r);
      }
    } else {
      NotDeliverable(st, c, r);
    }
  }

  /** A command is served whatever deliverable response the card has for it iff
      it is not GET RESPONSE or the cache is empty. */
  lemma AlwaysServedIff(st: RelayState, c: Command)
    requires Legal(c)
    ensures (forall remote: Remote, r: Response :: Answers(remote, st, c, r) && FinalResponse(r) && Deliverable(c, |r|)
               ==> TransactOf(st, remote, c).0 == Some(CardOutcome(r)))
       <==> !ReadsCache(st.cached, c)
  {
    hide UiccSimCase, TransactOf, Deliverable, Answers;
    if ReadsCache(st.cached, c) {
      var r: Response := [0x90, 0x00];
      OnlyAnswersAnswers(st, c, r);
      ShortResponsesAreDeliverable(c, 2);
      RelayPreserves(st, OnlyAnswers(st, c, r), c, r);
    } else {
      forall remote: Remote, r: Response | Answers(remote, st, c, r) && FinalResponse(r) && Deliverable(c, |r|)
        ensures TransactOf(st, remote, c).0 == Some(CardOutcome(r))
      {
        RelayPreserves(st, remote, c, r);
      }
    }
  }

  lemma OnlyAnswersAnswers(st: RelayState, c: Command, r: Response)
    requires |r| >= SW_LEN
    ensures Answers(OnlyAnswers(st, c, r), st, c, r)
  {
  }

  lemma NotDeliverable(st: RelayState, c: Command, r: Response)
    requires IsFresh(st, c) && FinalResponse(r) && !Deliverable(c, |r|)
    ensures Answers(OnlyAnswers(st, c, r), st, c, r)
    ensures TransactOf(st, OnlyAnswers(st, c, r), c).0 != Some(CardOutcome(r))
  {
    hide UiccSimCase, TransactOf, CommandDataLen;
    if |r| > ExpectedLen(c.header) {
      LongResponseIsLost(st, c, r);
    } else {
      ReissuedWithRightLength(st, OnlyAnswers(st, c, r), c, r);
    }
  }

  /** The card itself may answer with a bare 61xx or 6Cxx. The terminal's follow-up
      then reaches the card, and its response `r` gets through iff it is a status
      word or has the length asked for. */
  lemma CardsOwnFollowUpIff(st: RelayState, remote: Remote, c: Command, sw1: byte, sw2: byte, r: Response)
    requires IsFresh(st, c) && (sw1 == 0x61 || sw1 == 0x6C)
    requires remote(st.forwarded + [c.Apdu()]) == [sw1, sw2]
    requires var next := if sw1 == 0x61 then GetResponseFor(c, sw2) else Reissued(c, sw2);
      Legal(next) && remote(st.forwarded + [c.Apdu()] + [next.Apdu()]) == r
    requires |r| >= SW_LEN && ValidStatus(r[|r| - SW_LEN])
    ensures var next := if sw1 == 0x61 then GetResponseFor(c, sw2) else Reissued(c, sw2);
      TransactOf(st, remote, c).0 == Some(CardOutcome(r)) <==> |r| == SW_LEN || |r| == ExpectedLen(next.header)
  {
    hide UiccSimCase, ExpectedLen, CommandDataLen, Understand;
    var next := if sw1 == 0x61 then GetResponseFor(c, sw2) else Reissued(c, sw2);
    StatusPasses(st, remote, c);
    var st' := RelayState([], st.forwarded + [c.Apdu()]);
    assert ExchangeOf(st, remote, c).1 == st';
    assert TransactOf(st, remote, c) == FollowUp(st', remote, next);
    if |r| == SW_LEN {
      StatusPasses(st', remote, next);
      assert r[..0] == [] && r[0..] == r;
    } else if |r| == ExpectedLen(next.header) {
      ExactLengthDelivered(st', remote, next, r);
    } else {
      StatusBytes(next, if |r| > ExpectedLen(next.header) then 0x61 else 0x6C, (|r| - SW_LEN) % 256);
    }
  }

  // ---------- Whole runs ----------

  /** What the terminal gets for one command after the other. */
  function OutcomesOf(st: RelayState, remote: Remote, cs: seq<Command>): seq<Option<Outcome>>
    decreases |cs|
  {
    if cs == [] then []
    else
      var (o, st') := TransactOf(st, remote, cs[0]);
      [o] + OutcomesOf(st', remote, cs[1..])
  }

  /** What the card has to say to these commands. */
  ghost function CardOutcomes(rs: seq<Response>): seq<Option<Outcome>>
    requires forall i :: 0 <= i < |rs| ==> |rs[i]| >= SW_LEN
  {
    if rs == [] then [] else [Some(CardOutcome(rs[0]))] + CardOutcomes(rs[1..])
  }

  /** Legal commands, for which the card has these deliverable responses whenever
      it is asked. */
  ghost predicate Script(remote: Remote, st: RelayState, cs: seq<Command>, rs: seq<Response>)
    decreases |cs|
  {
    |cs| == |rs| &&
    (cs != [] ==>
      && Legal(cs[0]) && Answers(remote, st, cs[0], rs[0]) && FinalResponse(rs[0]) && Deliverable(cs[0], |rs[0]|)
      && Script(remote, AfterOf(st, cs[0], rs[0]), cs[1..], rs[1..]))
  }

  lemma {:induction false} ScriptIsFinal(remote: Remote, st: RelayState, cs: seq<Command>, rs: seq<Response>)
    requires Script(remote, st, cs, rs)
    ensures |cs| == |rs| && forall i :: 0 <= i < |rs| ==> |rs[i]| >= SW_LEN
    decreases |cs|
  {
    if cs != [] {
      ScriptIsFinal(remote, AfterOf(st, cs[0], rs[0]), cs[1..], rs[1..]);
      forall i | 0 <= i < |rs| ensures |rs[i]| >= SW_LEN {
        if i > 0 {
          assert rs[i] == rs[1..][i - 1];
        }
      }
    }
  }

  /** What the cache holds when command `i` begins. */
  function CacheAt(cached: Bytes, cs: seq<Command>, rs: seq<Response>, i: nat): Bytes
    requires i <= |cs| == |rs|
    decreases i
  {
    if i == 0 then cached
    else CacheAt(AfterOf(RelayState(cached, []), cs[0], rs[0]).cached, cs[1..], rs[1..], i - 1)
  }

  ghost predicate CacheAlwaysAgrees(cached: Bytes, cs: seq<Command>, rs: seq<Response>)
    requires |cs| == |rs|
  {
    forall i :: 0 <= i < |cs| ==> CacheAgrees(CacheAt(cached, cs, rs, i), cs[i], rs[i])
  }

  lemma CacheAlwaysAgreesSplits(cached: Bytes, cs: seq<Command>, rs: seq<Response>)
    requires |cs| == |rs| && cs != []
    ensures var next := AfterOf(RelayState(cached, []), cs[0], rs[0]).cached;
      CacheAlwaysAgrees(cached, cs, rs) <==> CacheAgrees(cached, cs[0], rs[0]) && CacheAlwaysAgrees(next, cs[1..], rs[1..])
  {
    hide AfterOf, CacheAgrees;
    var next := AfterOf(RelayState(cached, []), cs[0], rs[0]).cached;
    if CacheAlwaysAgrees(cached, cs, rs) {
      assert CacheAt(cached, cs, rs, 0) == cached;
      forall i | 0 <= i < |cs[1..]| ensures CacheAgrees(CacheAt(next, cs[1..], rs[1..], i), cs[1..][i], rs[1..][i]) {
        assert CacheAt(cached, cs, rs, i + 1) == CacheAt(next, cs[1..], rs[1..], i);
      }
    }
    if CacheAgrees(cached, cs[0], rs[0]) && CacheAlwaysAgrees(next, cs[1..], rs[1..]) {
      forall i | 0 <= i < |cs| ensures CacheAgrees(CacheAt(cached, cs, rs, i), cs[i], rs[i]) {
        if i > 0 {
          assert cs[i] == cs[1..][i - 1] && rs[i] == rs[1..][i - 1];
        }
      }
    }
  }

  /** Over a whole run the terminal ends up with the card's outcomes iff no GET
      RESPONSE meets a response that is still cached, but for one that equals
      what the card would have answered. */
  lemma {:induction false} RunPreservesIff(st: RelayState, remote: Remote, cs: seq<Command>, rs: seq<Response>)
    requires Script(remote, st, cs, rs)
    ensures |cs| == |rs| && forall i :: 0 <= i < |rs| ==> |rs[i]| >= SW_LEN
    ensures OutcomesOf(st, remote, cs) == CardOutcomes(rs) <==> CacheAlwaysAgrees(st.cached, cs, rs)
    decreases |cs|
  {
    hide TransactOf, AfterOf, Answers, FinalResponse, Deliverable, Legal, CardOutcome, CacheAgrees, CacheAlwaysAgrees;
    ScriptIsFinal(remote, st, cs, rs);
    if cs == [] {
      NoCommands(st.cached);
    } else {
      RelayPreserves(st, remote, cs[0], rs[0]);
      var next := AfterOf(st, cs[0], rs[0]);
      AfterIgnoresForwarded(st, cs[0], rs[0]);
      RunPreservesIff(next, remote, cs[1..], rs[1..]);
      CacheAlwaysAgreesSplits(st.cached, cs, rs);
      var o, later := TransactOf(st, remote, cs[0]).0, OutcomesOf(next, remote, cs[1..]);
      HeadAndTail(o, later, Some(CardOutcome(rs[0])), CardOutcomes(rs[1..]));
    }
  }

  lemma HeadAndTail<T>(a: T, s: seq<T>, b: T, t: seq<T>)
    ensures [a] + s == [b] + t <==> a == b && s == t
  {
    if [a] + s == [b] + t {
      assert ([a] + s)[0] == a && ([b] + t)[0] == b;
      assert ([a] + s)[1..] == s && ([b] + t)[1..] == t;
    }
  }

  lemma NoCommands(cached: Bytes)
    ensures CacheAlwaysAgrees(cached, [], [])
  {
  }

  lemma AfterIgnoresForwarded(st: RelayState, c: Command, r: Response)
    ensures AfterOf(RelayState(st.cached, []), c, r).cached == AfterOf(st, c, r).cached
  {
    hide ExpectedLen;
  }

  /** Whether a fresh command leaves its response in the cache for good. */
  predicate StaysCached(c: Command, r: Response) {
    var le := ExpectedLen(c.header);
    |r| != SW_LEN && |r| != le && (|r| > le || (c.Ins() == GET_RESPONSE && |r| < 256))
  }

  /** From reset on this holds where no GET RESPONSE follows directly on a command
      whose response has stayed in the cache. */
  lemma {:induction false} NoStaleFetch(cs: seq<Command>, rs: seq<Response>)
    requires |cs| == |rs|
    requires forall i :: 0 < i < |cs| && cs[i].Ins() == GET_RESPONSE ==> !StaysCached(cs[i - 1], rs[i - 1])
    ensures CacheAlwaysAgrees([], cs, rs)
  {
    hide ExpectedLen;
    forall i | 0 <= i < |cs| ensures CacheAgrees(CacheAt([], cs, rs, i), cs[i], rs[i]) {
      CacheBefore([], cs, rs, i);
    }
  }

  lemma {:induction false} CacheBefore(cached: Bytes, cs: seq<Command>, rs: seq<Response>, i: nat)
    requires i < |cs| == |rs|
    requires !ReadsCache(cached, cs[0])
    requires forall j :: 0 < j < |cs| && cs[j].Ins() == GET_RESPONSE ==> !StaysCached(cs[j - 1], rs[j - 1])
    ensures !ReadsCache(CacheAt(cached, cs, rs, i), cs[i])
    decreases i
  {
    hide ExpectedLen;
    if i > 0 {
      var next := AfterOf(RelayState(cached, []), cs[0], rs[0]).cached;
      assert next != [] ==> StaysCached(cs[0], rs[0]);
      forall j | 0 < j < |cs[1..]| && cs[1..][j].Ins() == GET_RESPONSE
        ensures !StaysCached(cs[1..][j - 1], rs[1..][j - 1])
      {
        assert cs[1..][j] == cs[j + 1] && cs[1..][j - 1] == cs[j + 1 - 1];
      }
      CacheBefore(next, cs[1..], rs[1..], i - 1);
    }
  }

  /** A response with data may itself end in 61yy and announce more. A terminal
      that asks for it gets it iff the first response has not stayed in the cache;
      otherwise it is served that response again. */
  lemma ContinuedIff(st: RelayState, remote: Remote, c: Command, r: Response, more: Response)
    requires FinalResponse(r) && |r| > SW_LEN && !ReadsCache(st.cached, c)
    requires Script(remote, st, [c, GetResponseFor(c, r[|r| - 1])], [r, more])
    ensures |more| >= SW_LEN
    ensures var g := GetResponseFor(c, r[|r| - 1]);
      OutcomesOf(st, remote, [c, g]) == [Some(CardOutcome(r)), Some(CardOutcome(more))]
      <==> StaysCached(c, r) ==> more == r && |r| == RequestedLen(g) + SW_LEN
  {
    hide TransactOf, Answers, Deliverable, Legal, CardOutcome, ExpectedLen;
    var g := GetResponseFor(c, r[|r| - 1]);
    var cs, rs := [c, g], [r, more];
    RunPreservesIff(st, remote, cs, rs);
    assert |rs[1]| >= SW_LEN && cs[1..] == [g] && rs[1..] == [more] && [more][1..] == [];
    assert CardOutcomes([more]) == [Some(CardOutcome(more))] + CardOutcomes([]);
    assert CacheAt(st.cached, cs, rs, 0) == st.cached;
    var next := AfterOf(RelayState(st.cached, []), c, r).cached;
    assert CacheAt(st.cached, cs, rs, 1) == CacheAt(next, [g], [more], 0) == next;
  }

  // ---------- What reaches the card ----------

  /** The lengths that P3 announces, by the sets of instructions: Lc command data
      bytes for the cases 3 and 4, and a response of Le bytes, 256 for 0, and a
      status word for case 2. */
  lemma LengthsByCase(h: Header)
    ensures CommandDataLen(h) == if HasCase3(h) || HasCase4(h) then h[4] else 0
    ensures ExpectedLen(h) == if HasCase2(h) then (if h[4] == 0 then 258 else 2 + h[4] as nat) else 2
  {
    hide UiccSimCase, HasCase1, HasCase2, HasCase3, HasCase4;
    CaseSets(h);
  }

  /** One command after the other, without follow-ups. */
  function ExchangesOf(st: RelayState, remote: Remote, cs: seq<Command>): RelayState
    decreases |cs|
  {
    if cs == [] then st else ExchangesOf(ExchangeOf(st, remote, cs[0]).1, remote, cs[1..])
  }

  /** The bytes that the terminal has sent for those commands that the cache did
      not answer. */
  function SentToCard(st: RelayState, remote: Remote, cs: seq<Command>): seq<Bytes>
    decreases |cs|
  {
    if cs == [] then []
    else
      (if st.cached != [] && cs[0].header[1] == 0xC0 then [] else [cs[0].header + cs[0].data])
      + SentToCard(ExchangeOf(st, remote, cs[0]).1, remote, cs[1..])
  }

  /** Over a run the card gets header and data of each command, whole and in order,
      except for the commands that the cache answers. */
  lemma {:induction false} CardGetsCommands(st: RelayState, remote: Remote, cs: seq<Command>)
    ensures ExchangesOf(st, remote, cs).forwarded == st.forwarded + SentToCard(st, remote, cs)
    ensures (forall i :: 0 <= i < |cs| ==> cs[i].header[1] != 0xC0) ==>
      |SentToCard(st, remote, cs)| == |cs|
      && forall i :: 0 <= i < |cs| ==> SentToCard(st, remote, cs)[i] == cs[i].header + cs[i].data
    decreases |cs|
  {
    hide UiccSimCase, Delivered, IsCached, CommandDataLen;
    if cs != [] {
      CardGetsCommands(ExchangeOf(st, remote, cs[0]).1, remote, cs[1..]);
    }
  }

  // ---------- An input on which the cache is in the way ----------

  /** SELECT of the master file, which the card answers with one byte and the
      announcement of five more. */
  const SELECT_MF := Command([0x00, 0xA4, 0x00, 0x04, 0x02], [0x3F, 0x00])
  const ONE_BYTE_AND_MORE: Response := [0x62, 0x61, 0x05]
  const FIVE_MORE: Response := [1, 2, 3, 4, 5, 0x90, 0x00]

  function MoreThanOnce(): Remote {
    (apdus: seq<Bytes>) => if |apdus| == 1 then ONE_BYTE_AND_MORE else FIVE_MORE
  }

  lemma CasesOfSelect()
    ensures UiccSimCase(SELECT_MF.header) == 4 && UiccSimCase([0x00, GET_RESPONSE, 0, 0, 5]) == 2
  {
    hide UiccSimCase;
    CaseSets(SELECT_MF.header);
    CaseSets([0x00, GET_RESPONSE, 0, 0, 5]);
  }

  /** After reset: the terminal gets the first byte, and in place of the five it is
      told of, the same response again, which is not what it has asked for. */
  lemma ContinuationIsLost()
    ensures var g := GetResponseFor(SELECT_MF, 5);
      var st := RelayState([], []);
      && Script(MoreThanOnce(), st, [SELECT_MF, g], [ONE_BYTE_AND_MORE, FIVE_MORE])
      && OutcomesOf(st, MoreThanOnce(), [SELECT_MF, g]) == [Some(Outcome([0x62], [0x61, 0x05])), None]
      && ExchangeOf(AfterOf(st, SELECT_MF, ONE_BYTE_AND_MORE), MoreThanOnce(), g).0 == [GET_RESPONSE] + ONE_BYTE_AND_MORE
  {
    hide UiccSimCase, TransactOf, ExchangeOf;
    CasesOfSelect();
    var g := GetResponseFor(SELECT_MF, 5);
    var st, next := RelayState([], []), AfterOf(RelayState([], []), SELECT_MF, ONE_BYTE_AND_MORE);
    assert next == RelayState(ONE_BYTE_AND_MORE, [SELECT_MF.Apdu()]);
    assert Script(MoreThanOnce(), next, [g], [FIVE_MORE]);
    assert [SELECT_MF, g][1..] == [g] && [ONE_BYTE_AND_MORE, FIVE_MORE][1..] == [FIVE_MORE];
    RelayPreserves(st, MoreThanOnce(), SELECT_MF, ONE_BYTE_AND_MORE);
    assert ONE_BYTE_AND_MORE[..1] == [0x62] && ONE_BYTE_AND_MORE[1..] == [0x61, 0x05];
    CacheHidesCard(next, MoreThanOnce(), g);
    assert OutcomesOf(next, MoreThanOnce(), [g]) == [None] + OutcomesOf(next, MoreThanOnce(), []);
  }
}
