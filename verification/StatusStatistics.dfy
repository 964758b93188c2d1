/** `Probe.get_status_statistics` of models.py: how long a probe was online,
    offline and not yet registered, and that these times add up. */
module StatusStatistics {
  import opened Bytes
  import opened ProbeTimeline

  /** The dictionary `durations`; `preRegistration` is absent without activation. */
  datatype Durations = Durations(online: int, offline: int, preRegistration: Option<int>) {
    function Total(): int {
      online + offline + (match preRegistration case Some(d) => d case None => 0)
    }
  }

  /** The percentages, keyed like the durations. */
  datatype Percentages = Percentages(online: real, offline: real, preRegistration: Option<real>) {
    function Total(): real {
      online + offline + (match preRegistration case Some(x) => x case None => 0.0)
    }
  }

  /** The total duration of the statuses of one kind. */
  function TotalOf(statuses: seq<Status>, kind: Kind): int {
    if statuses == [] then 0
    else
      var s := statuses[|statuses| - 1];
      TotalOf(statuses[..|statuses| - 1], kind) + (if s.kind == kind then s.Duration() else 0)
  }

  /** How long the probe has been known: up to the end of the first status in
      the order of the relationship, or up to now when there is none. */
  function KnownFor(statuses: seq<Status>, activated: Option<int>, now: int): int {
    match activated
    case None => 0
    case Some(a) => if statuses != [] then statuses[0].end - a else now - a
  }

  function PreRegistration(statuses: seq<Status>, activated: Option<int>, now: int): Option<int> {
    match activated
    case None => None
    case Some(a) => if statuses != [] then Some(statuses[|statuses| - 1].begin - a) else Some(now - a)
  }

  function Share(d: int, total: int): real
    requires total > 0
  {
    d as real / total as real * 100.0
  }

  function SharesOf(d: Durations, known: int): Percentages {
    if known > 0 then
      Percentages(Share(d.online, known), Share(d.offline, known),
                  match d.preRegistration case Some(x) => Some(Share(x, known)) case None => None)
    else
      Percentages(0.0, 0.0, match d.preRegistration case Some(_) => Some(0.0) case None => None)
  }

  method GetStatusStatistics(statuses: seq<Status>, activated: Option<int>, now: int)
    returns (durations: Durations, percentages: Percentages)
    ensures durations == Durations(
      TotalOf(statuses, Online), TotalOf(statuses, Offline), PreRegistration(statuses, activated, now))
    ensures percentages == SharesOf(durations, KnownFor(statuses, activated, now))
    ensures var known := if activated.None? then 0
                         else (if statuses == [] then now else statuses[0].end) - activated.value;
      && known == KnownFor(statuses, activated, now)
      && (known > 0 ==>
           && percentages.online * known as real == 100.0 * durations.online as real
           && percentages.offline * known as real == 100.0 * durations.offline as real)
      && (known <= 0 ==> percentages.online == percentages.offline == 0.0)
    ensures percentages.preRegistration.Some? == durations.preRegistration.Some? == activated.Some?
    ensures activated.Some? ==>
      var known := KnownFor(statuses, activated, now);
      var before := (if statuses == [] then now else statuses[|statuses| - 1].begin) - activated.value;
      && durations.preRegistration == Some(before)
      && (if known > 0 then percentages.preRegistration.value * known as real == 100.0 * before as real
          else percentages.preRegistration == Some(0.0))
  {
    var knownFor :=
      if activated.None? then 0
      else if statuses != [] then statuses[0].end - activated.value
      else now - activated.value;
    var online, offline := 0, 0;
    for i := 0 to |statuses|
      invariant online == TotalOf(statuses[..i], Online) && offline == TotalOf(statuses[..i], Offline)
    {
      assert statuses[..i + 1][..i] == statuses[..i];
      if statuses[i].kind == Online {
        online := online + statuses[i].Duration();
      } else {
        offline := offline + statuses[i].Duration();
      }
    }
    assert statuses[..|statuses|] == statuses;
    durations := Durations(online, offline, None);
    if statuses != [] && activated.Some? {
      durations := durations.(preRegistration := Some(statuses[|statuses| - 1].begin - activated.value));
    } else if activated.Some? {
      durations := durations.(preRegistration := Some(now - activated.value));
    }
    percentages := SharesOf(durations, knownFor);
    if knownFor > 0 {
      ShareIsPercentage(online, knownFor);
      ShareIsPercentage(offline, knownFor);
      if durations.preRegistration.Some? {
        ShareIsPercentage(durations.preRegistration.value, knownFor);
      }
    }
  }

  lemma ShareIsPercentage(d: int, total: int)
    requires total > 0
    ensures Share(d, total) * total as real == 100.0 * d as real
  {
    var t, x := total as real, d as real;
    assert x / t * 100.0 * t == 100.0 * (x / t * t);
    assert x / t * t == x;
  }

  /** A status counts for its own kind with the time from its beginning to its end,
      and for the other kind not at all. */
  lemma TotalOfOne(s: Status, kind: Kind)
    ensures TotalOf([s], kind) == if s.kind == kind then s.end - s.begin else 0
    ensures TotalOf([], kind) == 0
  {
    assert [s][..0] == [];
  }

  // ---------- The order in which the database returns the statuses ----------

  /** Active statuses first, then by falling time of beginning. */
  ghost predicate ComesBefore(a: Status, b: Status) {
    (a.active && !b.active) || (a.active == b.active && a.begin >= b.begin)
  }

  /** Any order that the query may return: ties are not resolved. */
  ghost predicate IsListing(statuses: seq<Status>, tl: Timeline) {
    && multiset(statuses) == multiset(tl)
    && forall i, j :: 0 <= i < j < |statuses| ==> ComesBefore(statuses[i], statuses[j])
  }

  lemma ListingMembers(statuses: seq<Status>, tl: Timeline)
    requires multiset(statuses) == multiset(tl)
    ensures |statuses| == |tl|
    ensures forall i :: 0 <= i < |statuses| ==> statuses[i] in tl
    ensures forall i :: 0 <= i < |tl| ==> tl[i] in statuses
  {
    assert |statuses| == |multiset(statuses)| && |tl| == |multiset(tl)|;
    forall i | 0 <= i < |statuses| ensures statuses[i] in tl {
      assert statuses[i] in multiset(statuses);
      assert statuses[i] in multiset(tl);
    }
    forall i | 0 <= i < |tl| ensures tl[i] in statuses {
      assert tl[i] in multiset(tl);
      assert tl[i] in multiset(statuses);
    }
  }

  lemma {:induction false} BeginsGrow(tl: Timeline, i: nat, j: nat)
    requires WellFormed(tl) && i <= j < |tl|
    ensures tl[i].begin <= tl[j].begin
    decreases j - i
  {
    if i < j {
      BeginsGrow(tl, i + 1, j);
      assert tl[i].end == tl[i + 1].begin;
    }
  }

  /** The listing begins with the newest status and ends with one that began
      when the first poll came in. */
  lemma ListingEnds(statuses: seq<Status>, tl: Timeline)
    requires WellFormed(tl) && tl != [] && IsListing(statuses, tl)
    ensures statuses != [] && statuses[0] == tl[|tl| - 1] && statuses[|statuses| - 1].begin == tl[0].begin
  {
    var n := |tl| - 1;
    ListingMembers(statuses, tl);
    var k :| 0 <= k < |statuses| && statuses[k] == tl[n];
    assert k == 0 || ComesBefore(statuses[0], statuses[k]);
    assert statuses[0].active;
    var m :| 0 <= m < |tl| && tl[m] == statuses[0];
    assert m == n;
    var last := statuses[|statuses| - 1];
    var j :| 0 <= j < |tl| && tl[j] == last;
    BeginsGrow(tl, 0, j);
    var f :| 0 <= f < |statuses| && statuses[f] == tl[0];
    assert f == |statuses| - 1 || ComesBefore(statuses[f], last);
  }

  lemma {:induction false} TotalOfConcat(a: seq<Status>, b: seq<Status>, kind: Kind)
    ensures TotalOf(a + b, kind) == TotalOf(a, kind) + TotalOf(b, kind)
  {
    if b == [] {
      assert a + b == a;
    } else {
      assert (a + b)[..|a + b| - 1] == a + b[..|b| - 1];
      TotalOfConcat(a, b[..|b| - 1], kind);
    }
  }

  function Without(statuses: seq<Status>, k: nat): seq<Status>
    requires k < |statuses|
  {
    statuses[..k] + statuses[k + 1..]
  }

  lemma TotalOfWithout(b: seq<Status>, k: nat, kind: Kind)
    requires k < |b|
    ensures TotalOf(b, kind) == TotalOf(Without(b, k), kind) + (if b[k].kind == kind then b[k].Duration() else 0)
  {
    assert b == b[..k] + ([b[k]] + b[k + 1..]);
    TotalOfConcat(b[..k], [b[k]] + b[k + 1..], kind);
    TotalOfConcat([b[k]], b[k + 1..], kind);
    TotalOfConcat(b[..k], b[k + 1..], kind);
    assert [b[k]][..0] == [];
  }

  lemma WithoutSame(a: seq<Status>, b: seq<Status>, k: nat)
    requires a != [] && k < |b| && multiset(a) == multiset(b) && b[k] == a[|a| - 1]
    ensures multiset(a[..|a| - 1]) == multiset(Without(b, k))
  {
    LastAsMultiset(a);
    WithoutAsMultiset(b, k);
    assert multiset(a) - multiset{b[k]} == multiset(a[..|a| - 1]);
    assert multiset(b) - multiset{b[k]} == multiset(Without(b, k));
  }

  lemma LastAsMultiset(a: seq<Status>)
    requires a != []
    ensures multiset(a) == multiset(a[..|a| - 1]) + multiset{a[|a| - 1]}
  {
    assert a == a[..|a| - 1] + [a[|a| - 1]];
  }

  lemma WithoutAsMultiset(b: seq<Status>, k: nat)
    requires k < |b|
    ensures multiset(b) == multiset(Without(b, k)) + multiset{b[k]}
  {
    assert b == b[..k] + [b[k]] + b[k + 1..];
    assert multiset(b) == multiset(b[..k]) + multiset{b[k]} + multiset(b[k + 1..]);
    assert multiset(Without(b, k)) == multiset(b[..k]) + multiset(b[k + 1..]);
  }

  /** Totals do not depend on the order. */
  lemma {:induction false} TotalOfPermutation(a: seq<Status>, b: seq<Status>, kind: Kind)
    requires multiset(a) == multiset(b)
    ensures TotalOf(a, kind) == TotalOf(b, kind)
    decreases |a|
  {
    ListingMembers(a, b);
    if a != [] {
      var k :| 0 <= k < |b| && b[k] == a[|a| - 1];
      WithoutSame(a, b, k);
      TotalOfPermutation(a[..|a| - 1], Without(b, k), kind);
      TotalOfWithout(b, k, kind);
    }
  }

  /** Contiguous intervals: the durations telescope. */
  lemma {:induction false} DurationsTelescope(tl: Timeline, k: nat)
    requires WellFormed(tl) && 0 < k <= |tl|
    ensures TotalOf(tl[..k], Online) + TotalOf(tl[..k], Offline) == tl[k - 1].end - tl[0].begin
  {
    assert tl[..k][..k - 1] == tl[..k - 1];
    if k > 1 {
      DurationsTelescope(tl, k - 1);
      assert tl[k - 2].end == tl[k - 1].begin;
    } else {
      assert tl[..0] == [];
    }
  }

  /** Time is conserved, in whatever order the statuses are listed. */
  lemma DurationsAddUp(statuses: seq<Status>, tl: Timeline, activated: int, now: int)
    requires WellFormed(tl) && IsListing(statuses, tl)
    ensures TotalOf(statuses, Online) + TotalOf(statuses, Offline) + PreRegistration(statuses, Some(activated), now).value
         == KnownFor(statuses, Some(activated), now)
  {
    TotalOfPermutation(statuses, tl, Online);
    TotalOfPermutation(statuses, tl, Offline);
    if tl == [] {
      ListingMembers(statuses, tl);
    } else {
      ListingEnds(statuses, tl);
      DurationsTelescope(tl, |tl|);
      assert tl[..|tl|] == tl;
    }
  }

  lemma SharesAddUp(d: Durations, known: int)
    requires known > 0 && d.Total() == known && d.preRegistration.Some?
    ensures SharesOf(d, known).Total() == 100.0
  {
    var k := known as real;
    var x, y, z := d.online as real, d.offline as real, d.preRegistration.value as real;
    assert x + y + z == k;
    assert x / k + y / k + z / k == (x + y + z) / k;
  }

  /** On every timeline that polls and checks can produce, the reported durations
      of an activated probe add up to the time it is known for, and the
      percentages to 100 when that time is positive. */
  lemma StatisticsConserveTime(clock: int, evs: seq<Event>, interval: int, statuses: seq<Status>, activated: int, now: int)
    requires Ordered(clock, evs) && interval >= 0
    requires IsListing(statuses, Run(Start(clock), evs, interval).timeline)
    ensures var d := Durations(TotalOf(statuses, Online), TotalOf(statuses, Offline),
                               PreRegistration(statuses, Some(activated), now));
      var known := KnownFor(statuses, Some(activated), now);
      d.Total() == known && (known > 0 ==> SharesOf(d, known).Total() == 100.0)
  {
    var tl := Run(Start(clock), evs, interval).timeline;
    EveryRunIsWellFormed(clock, evs, interval);
    DurationsAddUp(statuses, tl, activated, now);
    var d := Durations(TotalOf(statuses, Online), TotalOf(statuses, Offline),
                       PreRegistration(statuses, Some(activated), now));
    var known := KnownFor(statuses, Some(activated), now);
    if known > 0 {
      SharesAddUp(d, known);
    }
  }
}
