/** The availability timeline of a measurement probe: the status update of
    `probe_poll` (probe_routes.py) and the periodic `_check_probe_statuses`
    (routes.py) of the management server. Times are in microseconds. */
module ProbeTimeline {
  import opened Bytes

  const MILLISECOND := 1000
  const OFFLINE_FOR := 30 * 60 * 1_000_000

  datatype Kind = Online | Offline

  /** A row of the table `probe_status`. */
  datatype Status = Status(kind: Kind, begin: int, end: int, active: bool) {
    function Duration(): int {
      end - begin
    }
  }

  /** The statuses of one probe in the order of their creation. */
  type Timeline = seq<Status>

  function NewStatus(kind: Kind, begin: int): Status {
    Status(kind, begin, begin + MILLISECOND, true)
  }

  // ---------- One poll and one check on one timeline ----------

  function FirstActive(tl: Timeline): (r: Option<nat>)
    ensures r.Some? ==> r.value < |tl| && tl[r.value].active
    ensures r.None? ==> forall i :: 0 <= i < |tl| ==> !tl[i].active
  {
    if tl == [] then None
    else if tl[0].active then Some(0)
    else match FirstActive(tl[1..]) case None => None case Some(i) => Some(i + 1)
  }

  predicate StillOnline(ps: Status, now: int, interval: int) {
    ps.kind == Online && ps.end + interval * 2 > now
  }

  function PollOf(tl: Timeline, now: int, interval: int): Timeline {
    match FirstActive(tl)
    case None => tl + [NewStatus(Online, now)]
    case Some(i) =>
      if StillOnline(tl[i], now, interval) then tl[i := tl[i].(end := now)]
      else tl[i := tl[i].(active := false, end := now)] + [NewStatus(Online, now)]
  }

  /** What a check does to one status: the updated status, and the offline status
      it opens where the online one has expired. */
  function CheckStatus(ps: Status, now: int, interval: int): (Status, Option<Status>) {
    if !ps.active then (ps, None)
    else if ps.kind == Online then
      if ps.end + interval * 2 < now then (ps.(active := false), Some(NewStatus(Offline, ps.end))) else (ps, None)
    else (ps.(end := now), None)
  }

  /** A check reports a status when its duration passes half an hour. */
  predicate Reports(ps: Status, now: int) {
    ps.active && ps.kind == Offline && ps.Duration() < OFFLINE_FOR <= now - ps.begin
  }

  function Updated(tl: Timeline, now: int, interval: int): (r: Timeline)
    ensures |r| == |tl|
    ensures forall i :: 0 <= i < |tl| ==> r[i] == CheckStatus(tl[i], now, interval).0
  {
    if tl == [] then [] else [CheckStatus(tl[0], now, interval).0] + Updated(tl[1..], now, interval)
  }

  function Opened(tl: Timeline, now: int, interval: int): Timeline {
    if tl == [] then []
    else
      match CheckStatus(tl[0], now, interval).1
      case None => Opened(tl[1..], now, interval)
      case Some(s) => [s] + Opened(tl[1..], now, interval)
  }

  /** The indices of the statuses that a check reports. */
  function Reported(tl: Timeline, now: int): seq<nat> {
    if tl == [] then []
    else Reported(tl[..|tl| - 1], now) + (if Reports(tl[|tl| - 1], now) then [|tl| - 1] else [])
  }

  function CheckOf(tl: Timeline, now: int, interval: int): Timeline {
    Updated(tl, now, interval) + Opened(tl, now, interval)
  }

  // ---------- Runs ----------

  /** The two actors: the probe's long poll and the periodic checker. */
  datatype Event = Poll(time: int) | Check(time: int)

  /** The timeline with the facts an observer would record: the times of all
      polls, the reports by index of the status, and the statuses that some check
      has seen at an age of half an hour or more. */
  datatype World = World(
    clock: int, lastPoll: Option<int>, timeline: Timeline,
    ghost polls: seq<int>, reports: seq<nat>, ghost seenOld: set<nat>)

  ghost function SeenOld(tl: Timeline, now: int): set<nat> {
    set i: nat | i < |tl| && tl[i].active && tl[i].kind == Offline && now - tl[i].begin >= OFFLINE_FOR
  }

  ghost function Step(w: World, ev: Event, interval: int): World {
    match ev
    case Poll(now) =>
      w.(clock := now, lastPoll := Some(now), timeline := PollOf(w.timeline, now, interval), polls := w.polls + [now])
    case Check(now) =>
      w.(clock := now, timeline := CheckOf(w.timeline, now, interval),
         reports := w.reports + Reported(w.timeline, now), seenOld := w.seenOld + SeenOld(w.timeline, now))
  }

  ghost function Run(w: World, evs: seq<Event>, interval: int): World
    decreases |evs|
  {
    if evs == [] then w else Run(Step(w, evs[0], interval), evs[1..], interval)
  }

  /** The clock does not go back. */
  ghost predicate Ordered(clock: int, evs: seq<Event>)
    decreases |evs|
  {
    evs == [] || (clock <= evs[0].time && Ordered(evs[0].time, evs[1..]))
  }

  ghost function Start(clock: int): World {
    World(clock, None, [], [], [], {})
  }

  // ---------- The invariant ----------

  /** Exactly the newest status is active; every status begins where the one
      before it ended; none ends before it begins; the first is online and no
      offline status follows another. */
  ghost predicate WellFormed(tl: Timeline) {
    && (forall i :: 0 <= i < |tl| ==> tl[i].active == (i == |tl| - 1) && tl[i].begin <= tl[i].end)
    && (forall i :: 0 <= i < |tl| - 1 ==> tl[i].end == tl[i + 1].begin)
    && (forall i :: 0 <= i < |tl| - 1 ==> tl[i].kind == Online || tl[i + 1].kind == Online)
    && (tl != [] ==> tl[0].kind == Online)
  }

  ghost predicate ClockBounds(w: World) {
    && (forall i :: 0 <= i < |w.timeline| ==> w.timeline[i].begin <= w.clock)
    && (forall i :: 0 <= i < |w.timeline| - 1 ==> w.timeline[i].end <= w.clock)
  }

  /** How the active status reflects the last poll. */
  ghost predicate PollsAgree(w: World, interval: int) {
    && (w.timeline == [] <==> w.polls == [])
    && (w.lastPoll.Some? <==> w.polls != [])
    && (w.polls != [] ==>
         var last := w.timeline[|w.timeline| - 1];
         var lp := w.polls[|w.polls| - 1];
         && w.lastPoll == Some(lp) && lp <= w.clock
         && (last.kind == Online ==> lp <= last.end <= lp + MILLISECOND)
         && (last.kind == Offline ==> lp <= last.begin && lp + 2 * interval < w.clock))
    && (forall i :: 0 <= i < |w.polls| ==> w.polls[i] <= w.polls[|w.polls| - 1])
  }

  /** No poll lies strictly inside an offline interval. */
  ghost predicate NoPollWhileOffline(w: World) {
    forall i, k :: 0 <= i < |w.timeline| && w.timeline[i].kind == Offline && 0 <= k < |w.polls| ==>
      w.polls[k] <= w.timeline[i].begin || w.timeline[i].end <= w.polls[k]
  }

  /** The reports so far are exactly the statuses seen at an age of half an hour,
      each once; the active one is among them iff its duration says so. */
  ghost predicate ReportsAgree(w: World) {
    && (forall i :: i in w.seenOld ==> i < |w.timeline|)
    && (forall i: nat :: multiset(w.reports)[i] == if i in w.seenOld then 1 else 0)
    && (w.timeline != [] ==>
         var n := |w.timeline| - 1;
         var last := w.timeline[n];
         && (n in w.seenOld <==> last.kind == Offline && last.Duration() >= OFFLINE_FOR)
         && (last.kind == Offline ==> last.end <= w.clock || last.Duration() == MILLISECOND))
  }

  ghost predicate Invariant(w: World, interval: int) {
    WellFormed(w.timeline) && ClockBounds(w) && PollsAgree(w, interval) && NoPollWhileOffline(w) && ReportsAgree(w)
  }

  // ---------- Every step keeps the invariant ----------

  lemma {:induction false} ActiveIsLast(tl: Timeline)
    requires forall i :: 0 <= i < |tl| ==> tl[i].active == (i == |tl| - 1)
    ensures FirstActive(tl) == if tl == [] then None else Some(|tl| - 1)
  {
    if |tl| > 1 {
      ActiveIsLast(tl[1..]);
    }
  }

  /** A poll in closed form: it touches the newest status only. An online status
      that ended less than two intervals ago is prolonged to now; any other is
      closed now, and an online one of a millisecond is opened. */
  lemma PollTouchesLast(tl: Timeline, now: int, interval: int)
    requires WellFormed(tl)
    ensures tl == [] ==> PollOf(tl, now, interval) == [Status(Online, now, now + 1000, true)]
    ensures tl != [] ==>
      var n := |tl| - 1;
      var ps := tl[n];
      PollOf(tl, now, interval)
      == if ps.kind == Online && now - ps.end < 2 * interval then tl[..n] + [Status(Online, ps.begin, now, true)]
         else tl[..n] + [Status(ps.kind, ps.begin, now, false), Status(Online, now, now + 1000, true)]
  {
    ActiveIsLast(tl);
  }

  lemma {:induction false} InactiveUnchecked(tl: Timeline, now: int, interval: int)
    requires forall i :: 0 <= i < |tl| ==> !tl[i].active
    ensures Updated(tl, now, interval) == tl && Opened(tl, now, interval) == [] && Reported(tl, now) == []
  {
    if tl != [] {
      InactiveUnchecked(tl[1..], now, interval);
      InactiveUnchecked(tl[..|tl| - 1], now, interval);
    }
  }

  lemma {:induction false} OpenedConcat(a: Timeline, b: Timeline, now: int, interval: int)
    ensures Opened(a + b, now, interval) == Opened(a, now, interval) + Opened(b, now, interval)
  {
    if a == [] {
      assert a + b == b;
    } else {
      assert (a + b)[1..] == a[1..] + b;
      OpenedConcat(a[1..], b, now, interval);
    }
  }

  lemma CheckOnLast(tl: Timeline, now: int, interval: int)
    requires WellFormed(tl) && tl != []
    ensures var n := |tl| - 1;
      var (ps, added) := CheckStatus(tl[n], now, interval);
      && CheckOf(tl, now, interval) == tl[..n] + [ps] + (match added case None => [] case Some(s) => [s])
      && Reported(tl, now) == if Reports(tl[n], now) then [n] else []
  {
    var n := |tl| - 1;
    var last := [tl[n]];
    assert tl == tl[..n] + last;
    InactiveUnchecked(tl[..n], now, interval);
    OpenedConcat(tl[..n], last, now, interval);
    assert last[1..] == [];
    assert Opened(last, now, interval)
        == match CheckStatus(tl[n], now, interval).1 { case None => [] case Some(s) => [s] };
    var u := Updated(tl, now, interval);
    assert u == tl[..n] + [CheckStatus(tl[n], now, interval).0];
  }

  /** A check in closed form: an online status that ended more than two intervals
      ago is closed at its end and followed by an offline one of a millisecond; an
      offline status is prolonged to now and reported when that takes it to half an
      hour. */
  lemma CheckTouchesLast(tl: Timeline, now: int, interval: int)
    requires WellFormed(tl)
    ensures tl == [] ==> CheckOf(tl, now, interval) == [] && Reported(tl, now) == []
    ensures tl != [] ==>
      var n := |tl| - 1;
      var ps := tl[n];
      && CheckOf(tl, now, interval)
         == (if ps.kind == Offline then tl[..n] + [Status(Offline, ps.begin, now, true)]
             else if now - ps.end > 2 * interval then
               tl[..n] + [Status(Online, ps.begin, ps.end, false), Status(Offline, ps.end, ps.end + 1000, true)]
             else tl)
      && Reported(tl, now)
         == if ps.kind == Offline && ps.end - ps.begin < 1_800_000_000 <= now - ps.begin then [n] else []
  {
    hide WellFormed, CheckOf, Reported, Reports, CheckStatus;
    if tl == [] {
      InactiveUnchecked(tl, now, interval);
      assert CheckOf(tl, now, interval) == [] by { EmptyCheck(now, interval); }
    } else {
      var n := |tl| - 1;
      LastIsActive(tl);
      CheckOnLast(tl, now, interval);
      OneStatusChecked(tl[n], now, interval);
      assert tl == tl[..n] + [tl[n]];
    }
  }

  lemma EmptyCheck(now: int, interval: int)
    ensures CheckOf([], now, interval) == []
  {
  }

  lemma LastIsActive(tl: Timeline)
    requires WellFormed(tl) && tl != []
    ensures tl[|tl| - 1].active
  {
  }

  lemma OneStatusChecked(ps: Status, now: int, interval: int)
    requires ps.active
    ensures CheckStatus(ps, now, interval)
         == if ps.kind == Offline then (Status(Offline, ps.begin, now, true), None)
            else if now - ps.end > 2 * interval then
              (Status(Online, ps.begin, ps.end, false), Some(Status(Offline, ps.end, ps.end + 1000, true)))
            else (ps, None)
    ensures Reports(ps, now) <==> ps.kind == Offline && ps.end - ps.begin < 1_800_000_000 <= now - ps.begin
  {
  }

  /** Prolonging or closing the newest status, without and with a successor. */
  lemma NewestChanged(tl: Timeline, x: Status)
    requires tl != [] && WellFormed(tl)
    requires x.kind == tl[|tl| - 1].kind && x.begin == tl[|tl| - 1].begin <= x.end
    ensures x.active ==> WellFormed(tl[..|tl| - 1] + [x])
    ensures forall y: Status ::
      !x.active && y.active && y.begin == x.end && y.begin <= y.end && (x.kind == Online || y.kind == Online) ==>
        WellFormed(tl[..|tl| - 1] + [x, y])
  {
    var n := |tl| - 1;
    assert n > 0 ==> tl[n - 1].end == tl[n].begin && (tl[n - 1].kind == Online || tl[n].kind == Online);
    forall y: Status |
      !x.active && y.active && y.begin == x.end && y.begin <= y.end && (x.kind == Online || y.kind == Online)
      ensures WellFormed(tl[..n] + [x, y])
    {
      Extended(tl[..n], x, y);
    }
  }

  lemma Extended(closed: Timeline, x: Status, y: Status)
    requires WellFormed(closed + [x.(active := true)])
    requires !x.active && y.active && y.begin == x.end && y.begin <= y.end && (x.kind == Online || y.kind == Online)
    ensures WellFormed(closed + [x, y])
  {
    var was := closed + [x.(active := true)];
    var now := closed + [x, y];
    var n := |closed|;
    assert forall i :: 0 <= i < n ==> now[i] == was[i];
    assert was[n] == x.(active := true) && now[n] == x && now[n + 1] == y;
  }

  lemma PollKeepsShape(w: World, now: int, interval: int)
    requires Invariant(w, interval) && w.clock <= now && interval >= 0
    ensures var w' := Step(w, Poll(now), interval); WellFormed(w'.timeline) && ClockBounds(w')
  {
    hide PollOf, PollsAgree, NoPollWhileOffline, ReportsAgree;
    var tl := w.timeline;
    PollTouchesLast(tl, now, interval);
    if tl != [] {
      var ps := tl[|tl| - 1];
      NewestChanged(tl, ps.(end := now));
      NewestChanged(tl, ps.(active := false, end := now));
      hide WellFormed;
    }
  }

  lemma CheckKeepsShape(w: World, now: int, interval: int)
    requires Invariant(w, interval) && w.clock <= now && interval >= 0
    ensures var w' := Step(w, Check(now), interval); WellFormed(w'.timeline) && ClockBounds(w')
  {
    hide CheckOf, Reported, SeenOld, PollsAgree, NoPollWhileOffline, ReportsAgree;
    var tl := w.timeline;
    CheckTouchesLast(tl, now, interval);
    if tl != [] {
      var closed, ps := tl[..|tl| - 1], tl[|tl| - 1];
      var checked := CheckOf(tl, now, interval);
      if ps.kind == Offline {
        NewestChanged(tl, Status(Offline, ps.begin, now, true));
      } else if now - ps.end > 2 * interval {
        var x, y := Status(Online, ps.begin, ps.end, false), Status(Offline, ps.end, ps.end + 1000, true);
        NewestChanged(tl, x);
        BoundsOfTwo(w, closed, x, y, now);
      }
    }
  }

  lemma BoundsOfTwo(w: World, closed: Timeline, x: Status, y: Status, now: int)
    requires ClockBounds(w) && w.clock <= now && w.timeline != [] && closed == w.timeline[..|w.timeline| - 1]
    requires x.begin == w.timeline[|w.timeline| - 1].begin && x.end <= now && y.begin == x.end
    ensures ClockBounds(w.(clock := now, timeline := closed + [x, y]))
  {
    var tl := closed + [x, y];
    forall i | 0 <= i < |closed| ensures tl[i] == w.timeline[i] {
    }
  }

  lemma PollKeepsPolls(w: World, now: int, interval: int)
    requires Invariant(w, interval) && w.clock <= now && interval >= 0
    ensures var w' := Step(w, Poll(now), interval); PollsAgree(w', interval) && NoPollWhileOffline(w')
  {
    hide PollOf, ReportsAgree;
    PollTouchesLast(w.timeline, now, interval);
  }

  lemma PollKeepsReports(w: World, now: int, interval: int)
    requires Invariant(w, interval) && w.clock <= now && interval >= 0
    ensures ReportsAgree(Step(w, Poll(now), interval))
  {
    hide PollOf, NoPollWhileOffline, PollsAgree;
    PollTouchesLast(w.timeline, now, interval);
  }

  lemma CheckKeepsPolls(w: World, now: int, interval: int)
    requires Invariant(w, interval) && w.clock <= now && interval >= 0
    ensures var w' := Step(w, Check(now), interval); PollsAgree(w', interval) && NoPollWhileOffline(w')
  {
    hide CheckOf, Reported, SeenOld, ReportsAgree;
    CheckTouchesLast(w.timeline, now, interval);
  }

  lemma CheckKeepsReports(w: World, now: int, interval: int)
    requires Invariant(w, interval) && w.clock <= now && interval >= 0
    ensures ReportsAgree(Step(w, Check(now), interval))
  {
    hide CheckOf, Reported, SeenOld, NoPollWhileOffline, PollsAgree, WellFormed, ClockBounds;
    var tl := w.timeline;
    var checked, reported, seen := CheckOf(tl, now, interval), Reported(tl, now), SeenOld(tl, now);
    CheckInShort(tl, now, interval);
    SeenIsNewest(tl, now);
    hide ReportsAgree;
    if tl == [] {
      assert w.reports + reported == w.reports && w.seenOld + seen == w.seenOld;
      NothingToReport(w, now);
    } else if tl[|tl| - 1].kind == Online {
      assert w.reports + reported == w.reports && w.seenOld + seen == w.seenOld;
      OnlineIsNotReported(w, checked, now);
    } else {
      OfflineIsReported(w, checked, now);
    }
  }

  lemma CheckInShort(tl: Timeline, now: int, interval: int)
    requires WellFormed(tl)
    ensures var checked, reported := CheckOf(tl, now, interval), Reported(tl, now);
      && (tl == [] ==> checked == [] && reported == [])
      && (tl != [] && tl[|tl| - 1].kind == Online ==>
           && reported == []
           && (checked == tl || (|checked| == |tl| + 1 && checked[|tl|].kind == Offline
                                 && checked[|tl|].Duration() == MILLISECOND)))
      && (tl != [] && tl[|tl| - 1].kind == Offline ==>
           var n := |tl| - 1;
           && |checked| == |tl| && checked[n] == Status(Offline, tl[n].begin, now, true)
           && reported == if tl[n].end - tl[n].begin < OFFLINE_FOR <= now - tl[n].begin then [n] else [])
  {
    hide WellFormed, CheckOf, Reported;
    CheckTouchesLast(tl, now, interval);
  }

  lemma NothingToReport(w: World, now: int)
    requires ReportsAgree(w) && w.timeline == []
    ensures ReportsAgree(w.(clock := now))
  {
  }

  lemma OnlineIsNotReported(w: World, tl: Timeline, now: int)
    requires ReportsAgree(w) && w.timeline != [] && w.timeline[|w.timeline| - 1].kind == Online
    requires tl == w.timeline
          || (|tl| == |w.timeline| + 1 && tl[|tl| - 1].kind == Offline && tl[|tl| - 1].Duration() == MILLISECOND)
    ensures ReportsAgree(w.(clock := now, timeline := tl))
  {
  }

  lemma OfflineIsReported(w: World, tl: Timeline, now: int)
    requires ReportsAgree(w) && w.timeline != [] && w.clock <= now && |tl| == |w.timeline|
    requires var last := w.timeline[|tl| - 1];
      last.kind == Offline && tl[|tl| - 1] == Status(Offline, last.begin, now, true)
    ensures var n := |tl| - 1;
      var last := w.timeline[n];
      var reported := if last.end - last.begin < OFFLINE_FOR <= now - last.begin then [n] else [];
      var seen := if now - last.begin >= OFFLINE_FOR then {n} else {};
      ReportsAgree(w.(clock := now, timeline := tl, reports := w.reports + reported, seenOld := w.seenOld + seen))
  {
  }

  lemma SeenIsNewest(tl: Timeline, now: int)
    requires WellFormed(tl)
    ensures tl == [] ==> SeenOld(tl, now) == {}
    ensures tl != [] ==>
      var n := |tl| - 1;
      SeenOld(tl, now) == if tl[n].kind == Offline && now - tl[n].begin >= 1_800_000_000 then {n} else {}
  {
  }

  lemma StepKeepsInvariant(w: World, ev: Event, interval: int)
    requires Invariant(w, interval) && w.clock <= ev.time && interval >= 0
    ensures Invariant(Step(w, ev, interval), interval)
  {
    match ev
    case Poll(now) =>
      PollKeepsShape(w, now, interval);
      PollKeepsPolls(w, now, interval);
      PollKeepsReports(w, now, interval);
    case Check(now) =>
      CheckKeepsShape(w, now, interval);
      CheckKeepsPolls(w, now, interval);
      CheckKeepsReports(w, now, interval);
  }

  // ---------- Theorems over all runs ----------

  lemma {:induction false} RunKeepsInvariant(w: World, evs: seq<Event>, interval: int)
    requires Invariant(w, interval) && Ordered(w.clock, evs) && interval >= 0
    ensures Invariant(Run(w, evs, interval), interval)
    decreases |evs|
  {
    hide Invariant;
    if evs != [] {
      StepKeepsInvariant(w, evs[0], interval);
      RunKeepsInvariant(Step(w, evs[0], interval), evs[1..], interval);
    }
  }

  /** Any interleaving of polls and checks, from an empty timeline on. */
  lemma EveryRunIsWellFormed(clock: int, evs: seq<Event>, interval: int)
    requires Ordered(clock, evs) && interval >= 0
    ensures Invariant(Run(Start(clock), evs, interval), interval)
  {
    assert Invariant(Start(clock), interval);
    RunKeepsInvariant(Start(clock), evs, interval);
  }

  /** What may change about a timeline: new statuses may follow, closed ones stay
      as they are, and the newest keeps its kind and its beginning. */
  ghost predicate Extends(tl: Timeline, later: Timeline) {
    && |tl| <= |later|
    && (forall i :: 0 <= i < |tl| - 1 ==> later[i] == tl[i])
    && (tl != [] ==> later[|tl| - 1].kind == tl[|tl| - 1].kind && later[|tl| - 1].begin == tl[|tl| - 1].begin)
  }

  lemma StepExtends(w: World, ev: Event, interval: int)
    requires Invariant(w, interval)
    ensures Extends(w.timeline, Step(w, ev, interval).timeline)
  {
    hide PollOf, CheckOf, Reported, SeenOld, PollsAgree, NoPollWhileOffline, ReportsAgree;
    match ev
    case Poll(now) => PollTouchesLast(w.timeline, now, interval);
    case Check(now) => CheckTouchesLast(w.timeline, now, interval);
  }

  lemma {:induction false} ClosedStatusesNeverChange(w: World, evs: seq<Event>, interval: int)
    requires Invariant(w, interval) && Ordered(w.clock, evs) && interval >= 0
    ensures Extends(w.timeline, Run(w, evs, interval).timeline)
    decreases |evs|
  {
    hide Invariant;
    if evs != [] {
      StepKeepsInvariant(w, evs[0], interval);
      StepExtends(w, evs[0], interval);
      ClosedStatusesNeverChange(Step(w, evs[0], interval), evs[1..], interval);
    }
  }

  /** `Probe.is_polling`: the last poll began less than one interval ago. Then the
      active status is online. */
  lemma PollingMeansOnline(w: World, now: int, interval: int)
    requires Invariant(w, interval) && w.clock <= now && interval >= 0
    requires w.lastPoll.Some? && now - w.lastPoll.value < interval
    ensures w.timeline != []
    ensures var last := w.timeline[|w.timeline| - 1]; last.active && last.kind == Online
  {
  }

  lemma {:induction false} SeenOldIff(w: World, evs: seq<Event>, interval: int, i: nat)
    ensures i in Run(w, evs, interval).seenOld <==>
      || i in w.seenOld
      || exists k :: 0 <= k < |evs| && SeesOld(w, evs, interval, k, i)
    decreases |evs|
  {
    if evs != [] {
      var w1, rest := Step(w, evs[0], interval), evs[1..];
      SeenOldIff(w1, rest, interval, i);
      assert i in w1.seenOld <==> i in w.seenOld || SeesOld(w, evs, interval, 0, i);
      forall k | 0 <= k < |rest| ensures SeesOld(w1, rest, interval, k, i) == SeesOld(w, evs, interval, k + 1, i) {
        assert evs[..k + 1][1..] == rest[..k];
      }
      if k :| 0 <= k < |evs| && SeesOld(w, evs, interval, k, i) {
        assert k == 0 || SeesOld(w1, rest, interval, k - 1, i);
      }
    }
  }

  /** Event `k` of the run is a check that finds status `i` active, offline and at
      least half an hour old. */
  ghost predicate SeesOld(w: World, evs: seq<Event>, interval: int, k: nat, i: nat)
    requires k < |evs|
  {
    evs[k].Check? &&
    var tl := Run(w, evs[..k], interval).timeline;
    i < |tl| && tl[i].active && tl[i].kind == Offline && evs[k].time - tl[i].begin >= 1_800_000_000
  }

  /** However far apart the checks are, a status is reported once if some check
      sees it offline for half an hour, and never otherwise. */
  lemma ReportedExactlyOnce(clock: int, evs: seq<Event>, interval: int, i: nat)
    requires Ordered(clock, evs) && interval >= 0
    ensures multiset(Run(Start(clock), evs, interval).reports)[i]
         == if exists k :: 0 <= k < |evs| && SeesOld(Start(clock), evs, interval, k, i) then 1 else 0
  {
    EveryRunIsWellFormed(clock, evs, interval);
    SeenOldIff(Start(clock), evs, interval, i);
  }

  // ---------- When a status changes ----------

  ghost function Newest(w: World): Status
    requires w.timeline != []
  {
    w.timeline[|w.timeline| - 1]
  }

  /** On every reachable timeline, with the last poll at `lp`: a check makes an
      online probe offline when more than two intervals and a millisecond have
      passed since then, and leaves it online for two intervals; in the millisecond
      between, the end of the status decides. */
  lemma CheckExpiresIff(clock: int, evs: seq<Event>, interval: int, now: int)
    requires Ordered(clock, evs) && interval >= 0
    requires var w := Run(Start(clock), evs, interval);
      w.timeline != [] && w.clock <= now && w.lastPoll.Some? && Newest(w).kind == Online
    ensures var w := Run(Start(clock), evs, interval);
      var lp := w.lastPoll.value;
      var w' := Step(w, Check(now), interval);
      && w'.timeline != [] && lp <= Newest(w).end <= lp + 1000
      && (now > lp + 2 * interval + 1000 ==> Newest(w').kind == Offline)
      && (now <= lp + 2 * interval ==> w'.timeline == w.timeline)
      && (Newest(w').kind == Offline <==> now > Newest(w).end + 2 * interval)
      && (Newest(w').kind == Offline ==>
           Newest(w').begin == Newest(w).end && Newest(w').end == Newest(w).end + 1000
           && |w'.timeline| == |w.timeline| + 1)
  {
    hide Invariant, CheckOf;
    EveryRunIsWellFormed(clock, evs, interval);
    RunEndsInInvariant(clock, evs, interval);
    CheckTouchesLast(Run(Start(clock), evs, interval).timeline, now, interval);
  }

  /** A poll that comes less than two intervals after the last one of an online
      probe adds no status; one that comes two intervals and a millisecond after it
      or later, or finds the probe offline, adds one, and the probe is online. */
  lemma PollAddsStatusIff(clock: int, evs: seq<Event>, interval: int, now: int)
    requires Ordered(clock, evs) && interval >= 0
    requires var w := Run(Start(clock), evs, interval); w.clock <= now
    ensures var w := Run(Start(clock), evs, interval);
      var w' := Step(w, Poll(now), interval);
      && w'.timeline != [] && Newest(w').kind == Online && Newest(w').active && w'.lastPoll == Some(now)
      && (w.timeline == [] || Newest(w).kind == Offline ==> |w'.timeline| == |w.timeline| + 1)
      && (w.timeline != [] && Newest(w).kind == Online ==>
           && w.lastPoll.Some?
           && (now < w.lastPoll.value + 2 * interval ==> |w'.timeline| == |w.timeline|)
           && (now >= w.lastPoll.value + 2 * interval + 1000 ==> |w'.timeline| == |w.timeline| + 1)
           && (|w'.timeline| == |w.timeline| <==> now < Newest(w).end + 2 * interval))
  {
    hide Invariant, PollOf;
    EveryRunIsWellFormed(clock, evs, interval);
    RunEndsInInvariant(clock, evs, interval);
    PollTouchesLast(Run(Start(clock), evs, interval).timeline, now, interval);
  }

  lemma RunEndsInInvariant(clock: int, evs: seq<Event>, interval: int)
    requires Ordered(clock, evs) && interval >= 0
    ensures PollsAgree(Run(Start(clock), evs, interval), interval)
  {
    RunKeepsInvariant(Start(clock), evs, interval);
  }

  // ---------- The tables of the server ----------

  datatype Row = Row(probe: nat, status: Status)

  /** The timeline of one probe. */
  function TimelineOf(rows: seq<Row>, p: nat): Timeline {
    if rows == [] then []
    else
      var n := |rows| - 1;
      TimelineOf(rows[..n], p) + (if rows[n].probe == p then [rows[n].status] else [])
  }

  predicate IsActiveOf(row: Row, p: nat) {
    row.probe == p && row.status.active
  }

  function OpenedRow(row: Row, now: int, interval: int): seq<Row> {
    match CheckStatus(row.status, now, interval).1
    case None => []
    case Some(s) => [Row(row.probe, s)]
  }

  function UpdatedRow(row: Row, now: int, interval: int): Row {
    row.(status := CheckStatus(row.status, now, interval).0)
  }

  function UpdatedRows(rows: seq<Row>, now: int, interval: int): (r: seq<Row>)
    ensures |r| == |rows|
  {
    if rows == [] then []
    else UpdatedRows(rows[..|rows| - 1], now, interval) + [UpdatedRow(rows[|rows| - 1], now, interval)]
  }

  function OpenedRows(rows: seq<Row>, now: int, interval: int): seq<Row> {
    if rows == [] then []
    else OpenedRows(rows[..|rows| - 1], now, interval) + OpenedRow(rows[|rows| - 1], now, interval)
  }

  /** The probes that one check reports. */
  function ReportedProbes(rows: seq<Row>, now: int): seq<nat> {
    if rows == [] then []
    else
      var row := rows[|rows| - 1];
      ReportedProbes(rows[..|rows| - 1], now) + (if Reports(row.status, now) then [row.probe] else [])
  }

  /** The tables `probe` and `probe_status`, with the configured interval. */
  class ManagementDb {
    const interval: int
    var rows: seq<Row>
    var lastPoll: map<nat, int>

    constructor (interval: int)
      ensures this.interval == interval && rows == [] && lastPoll == map[]
    {
      this.interval, rows, lastPoll := interval, [], map[];
    }

    method FindActive(p: nat) returns (r: Option<nat>)
      ensures r.Some? ==> r.value < |rows| && IsActiveOf(rows[r.value], p)
      ensures r.Some? ==> forall j :: 0 <= j < r.value ==> !IsActiveOf(rows[j], p)
      ensures r.None? ==> forall j :: 0 <= j < |rows| ==> !IsActiveOf(rows[j], p)
    {
      var i := 0;
      while i < |rows|
        invariant 0 <= i <= |rows| && forall j :: 0 <= j < i ==> !IsActiveOf(rows[j], p)
      {
        if IsActiveOf(rows[i], p) {
          return Some(i);
        }
        i := i + 1;
      }
      return None;
    }

    /** The status update at the beginning of a long poll. */
    method ProbePoll(p: nat, now: int)
      modifies this
      ensures lastPoll == old(lastPoll)[p := now]
      ensures TimelineOf(rows, p) == PollOf(TimelineOf(old(rows), p), now, interval)
      ensures forall q :: q != p ==> TimelineOf(rows, q) == TimelineOf(old(rows), q)
    {
      lastPoll := lastPoll[p := now];
      ghost var before := rows;
      var found := FindActive(p);
      if found.None? {
        NoneActive(rows, p);
        rows := rows + [Row(p, NewStatus(Online, now))];
        return;
      }
      var i := found.value;
      var ps := rows[i].status;
      ghost var at := FindProjects(rows, p, i);
      if ps.kind == Online && ps.end + interval * 2 > now {
        rows := rows[i := Row(p, ps.(end := now))];
        UpdateProjects(before, i, ps.(end := now));
      } else {
        rows := rows[i := Row(p, ps.(active := false, end := now))];
        UpdateProjects(before, i, ps.(active := false, end := now));
        rows := rows + [Row(p, NewStatus(Online, now))];
      }
    }

    /** The periodic check of all probes; returns those to be reported. */
    method CheckProbeStatuses(now: int) returns (notification: seq<nat>)
      modifies this`rows
      ensures forall p :: TimelineOf(rows, p) == CheckOf(TimelineOf(old(rows), p), now, interval)
      ensures forall p :: multiset(notification)[p] == |Reported(TimelineOf(old(rows), p), now)|
    {
      hide UpdatedRow, OpenedRow, Reports, CheckOf, Reported, TimelineOf, Between;
      ghost var before := rows;
      var n := |rows|;
      var i := 0;
      notification := [];
      BetweenEnds(before, now, interval);
      while i < n
        invariant 0 <= i <= n == |before|
        invariant rows == Between(before, i, now, interval)
        invariant notification == ReportedProbes(before[..i], now)
      {
        BetweenSteps(before, i, now, interval);
        var report := CheckRow(i, now);
        if report {
          notification := notification + [rows[i].probe];
        }
        i := i + 1;
      }
      assert before[..n] == before;
      AllProject(before, now, interval);
    }

    /** One iteration, for row `i`; says whether it is to be reported. */
    method CheckRow(i: nat, now: int) returns (report: bool)
      requires i < |rows|
      modifies this`rows
      ensures rows == old(rows)[i := UpdatedRow(old(rows)[i], now, interval)] + OpenedRow(old(rows)[i], now, interval)
      ensures report == Reports(old(rows)[i].status, now) && rows[i].probe == old(rows)[i].probe
    {
      report := false;
      var row := rows[i];
      var ps := row.status;
      if ps.active {
        if ps.kind == Online && ps.end + interval * 2 < now {
          rows := rows[i := row.(status := ps.(active := false))] + [Row(row.probe, NewStatus(Offline, ps.end))];
        } else if ps.kind == Offline {
          var durationBefore := ps.Duration();
          ps := ps.(end := now);
          rows := rows[i := row.(status := ps)];
          report := durationBefore < OFFLINE_FOR <= ps.Duration();
        }
      }
    }
  }

  // ---------- One table, many independent timelines ----------

  /** The table when the check has handled the first `i` rows. */
  ghost function Between(before: seq<Row>, i: nat, now: int, interval: int): seq<Row>
    requires i <= |before|
  {
    UpdatedRows(before[..i], now, interval) + before[i..] + OpenedRows(before[..i], now, interval)
  }

  lemma BetweenEnds(before: seq<Row>, now: int, interval: int)
    ensures Between(before, 0, now, interval) == before
    ensures Between(before, |before|, now, interval)
         == UpdatedRows(before, now, interval) + OpenedRows(before, now, interval)
  {
    var n := |before|;
    assert before[..n] == before && before[n..] == [] && before[..0] == [] && before[0..] == before;
    var u := UpdatedRows(before, now, interval);
    assert u + [] == u;
  }

  lemma BetweenSteps(before: seq<Row>, i: nat, now: int, interval: int)
    requires i < |before|
    ensures var rows := Between(before, i, now, interval);
      && i < |rows| && rows[i] == before[i]
      && Between(before, i + 1, now, interval)
         == rows[i := UpdatedRow(before[i], now, interval)] + OpenedRow(before[i], now, interval)
    ensures ReportedProbes(before[..i + 1], now)
         == ReportedProbes(before[..i], now) + (if Reports(before[i].status, now) then [before[i].probe] else [])
  {
    hide UpdatedRow, OpenedRow, Reports;
    assert before[..i + 1][..i] == before[..i];
    var u, o := UpdatedRows(before[..i], now, interval), OpenedRows(before[..i], now, interval);
    var u', o' := [UpdatedRow(before[i], now, interval)], OpenedRow(before[i], now, interval);
    assert (u + before[i..] + o)[i := u'[0]] == u + u' + before[i + 1..] + o;
    assert u + u' + before[i + 1..] + o + o' == u + u' + before[i + 1..] + (o + o');
  }

  lemma {:induction false} TimelineConcat(a: seq<Row>, b: seq<Row>, p: nat)
    ensures TimelineOf(a + b, p) == TimelineOf(a, p) + TimelineOf(b, p)
  {
    if b == [] {
      assert a + b == a;
    } else {
      assert (a + b)[..|a + b| - 1] == a + b[..|b| - 1];
      TimelineConcat(a, b[..|b| - 1], p);
    }
  }

  lemma {:induction false} UpdatedConcat(a: Timeline, x: Status, now: int, interval: int)
    ensures Updated(a + [x], now, interval) == Updated(a, now, interval) + [CheckStatus(x, now, interval).0]
  {
  }

  lemma OneRowProjects(row: Row, p: nat, now: int, interval: int)
    ensures TimelineOf([row], p) == if row.probe == p then [row.status] else []
    ensures TimelineOf([UpdatedRow(row, now, interval)], p)
         == if row.probe == p then [CheckStatus(row.status, now, interval).0] else []
    ensures TimelineOf(OpenedRow(row, now, interval), p)
         == if row.probe == p then Opened([row.status], now, interval) else []
  {
    assert forall r: Row :: [r][..0] == [];
    assert [row.status][1..] == [];
  }

  lemma {:induction false} UpdatedProjects(rows: seq<Row>, p: nat, now: int, interval: int)
    ensures TimelineOf(UpdatedRows(rows, now, interval), p) == Updated(TimelineOf(rows, p), now, interval)
  {
    if rows != [] {
      var init, row := rows[..|rows| - 1], rows[|rows| - 1];
      UpdatedProjects(init, p, now, interval);
      OneRowProjects(row, p, now, interval);
      TimelineConcat(UpdatedRows(init, now, interval), [UpdatedRow(row, now, interval)], p);
      UpdatedConcat(TimelineOf(init, p), row.status, now, interval);
      hide CheckStatus, UpdatedRow, Updated;
      assert row.probe != p ==> TimelineOf(rows, p) == TimelineOf(init, p);
    }
  }

  lemma {:induction false} OpenedProjects(rows: seq<Row>, p: nat, now: int, interval: int)
    ensures TimelineOf(OpenedRows(rows, now, interval), p) == Opened(TimelineOf(rows, p), now, interval)
  {
    if rows != [] {
      var init, row := rows[..|rows| - 1], rows[|rows| - 1];
      OpenedProjects(init, p, now, interval);
      OneRowProjects(row, p, now, interval);
      TimelineConcat(OpenedRows(init, now, interval), OpenedRow(row, now, interval), p);
      OpenedConcat(TimelineOf(init, p), [row.status], now, interval);
      hide CheckStatus, OpenedRow, Opened;
      assert row.probe != p ==> TimelineOf(rows, p) == TimelineOf(init, p);
    }
  }

  lemma {:induction false} ReportsProject(rows: seq<Row>, p: nat, now: int)
    ensures multiset(ReportedProbes(rows, now))[p] == |Reported(TimelineOf(rows, p), now)|
  {
    if rows != [] {
      var init, row := rows[..|rows| - 1], rows[|rows| - 1];
      ReportsProject(init, p, now);
      var more := if Reports(row.status, now) then [row.probe] else [];
      assert ReportedProbes(rows, now) == ReportedProbes(init, now) + more;
      assert multiset(more)[p] == if Reports(row.status, now) && row.probe == p then 1 else 0;
      if row.probe == p {
        var tl := TimelineOf(rows, p);
        assert tl[..|tl| - 1] == TimelineOf(init, p);
      } else {
        assert TimelineOf(rows, p) == TimelineOf(init, p);
      }
    }
  }

  lemma AllProject(rows: seq<Row>, now: int, interval: int)
    ensures forall p :: TimelineOf(UpdatedRows(rows, now, interval) + OpenedRows(rows, now, interval), p)
                     == CheckOf(TimelineOf(rows, p), now, interval)
    ensures forall p :: multiset(ReportedProbes(rows, now))[p] == |Reported(TimelineOf(rows, p), now)|
  {
    forall p
      ensures TimelineOf(UpdatedRows(rows, now, interval) + OpenedRows(rows, now, interval), p)
           == CheckOf(TimelineOf(rows, p), now, interval)
    {
      TimelineConcat(UpdatedRows(rows, now, interval), OpenedRows(rows, now, interval), p);
      UpdatedProjects(rows, p, now, interval);
      OpenedProjects(rows, p, now, interval);
    }
    forall p ensures multiset(ReportedProbes(rows, now))[p] == |Reported(TimelineOf(rows, p), now)| {
      ReportsProject(rows, p, now);
    }
  }

  lemma {:induction false} NoneActive(rows: seq<Row>, p: nat)
    requires forall j :: 0 <= j < |rows| ==> !IsActiveOf(rows[j], p)
    ensures FirstActive(TimelineOf(rows, p)).None?
  {
    if rows != [] {
      NoneActive(rows[..|rows| - 1], p);
      var tl := TimelineOf(rows[..|rows| - 1], p);
      FirstActiveConcat(tl, if rows[|rows| - 1].probe == p then [rows[|rows| - 1].status] else []);
    }
  }

  lemma {:induction false} FirstActiveConcat(a: Timeline, b: Timeline)
    ensures FirstActive(a).Some? ==> FirstActive(a + b) == FirstActive(a)
    ensures FirstActive(a).None? ==>
      FirstActive(a + b) == match FirstActive(b) case None => None case Some(i) => Some(|a| + i)
  {
    if a == [] {
      assert a + b == b;
    } else {
      assert (a + b)[1..] == a[1..] + b;
      FirstActiveConcat(a[1..], b);
    }
  }

  /** The first active row of a probe is the first active status of its timeline. */
  lemma FindProjects(rows: seq<Row>, p: nat, i: nat) returns (at: nat)
    requires i < |rows| && IsActiveOf(rows[i], p) && forall j :: 0 <= j < i ==> !IsActiveOf(rows[j], p)
    ensures at == |TimelineOf(rows[..i], p)| && at < |TimelineOf(rows, p)|
    ensures FirstActive(TimelineOf(rows, p)) == Some(at) && TimelineOf(rows, p)[at] == rows[i].status
  {
    at := |TimelineOf(rows[..i], p)|;
    NoneActive(rows[..i], p);
    SplitAt(rows, p, i);
    FirstActiveConcat(TimelineOf(rows[..i], p), [rows[i].status] + TimelineOf(rows[i + 1..], p));
  }

  lemma SplitAt(rows: seq<Row>, p: nat, i: nat)
    requires i < |rows|
    ensures TimelineOf(rows, p)
         == TimelineOf(rows[..i], p) + ((if rows[i].probe == p then [rows[i].status] else []) + TimelineOf(rows[i + 1..], p))
  {
    assert rows == rows[..i] + ([rows[i]] + rows[i + 1..]);
    TimelineConcat(rows[..i], [rows[i]] + rows[i + 1..], p);
    TimelineConcat([rows[i]], rows[i + 1..], p);
    assert [rows[i]][..0] == [];
    assert TimelineOf([rows[i]], p) == if rows[i].probe == p then [rows[i].status] else [];
  }

  lemma UpdateProjects(rows: seq<Row>, i: nat, s: Status)
    requires i < |rows|
    ensures var p := rows[i].probe;
      var rows' := rows[i := Row(p, s)];
      var at := |TimelineOf(rows[..i], p)|;
      && at < |TimelineOf(rows, p)| && TimelineOf(rows', p) == TimelineOf(rows, p)[at := s]
      && forall q :: q != p ==> TimelineOf(rows', q) == TimelineOf(rows, q)
  {
    var p := rows[i].probe;
    var rows' := rows[i := Row(p, s)];
    assert rows'[..i] == rows[..i] && rows'[i + 1..] == rows[i + 1..];
    SplitAt(rows, p, i);
    SplitAt(rows', p, i);
    hide TimelineOf;
    forall q | q != p ensures TimelineOf(rows', q) == TimelineOf(rows, q) {
      SplitAt(rows, q, i);
      SplitAt(rows', q, i);
    }
  }
}
