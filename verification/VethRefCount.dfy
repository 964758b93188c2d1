/** The use counts of the virtual Ethernet bridge and of the default gateway on
    it: enable/disable_veth_bridge and enable/disable_veth_gateway of
    mobile_atlas_mediator.py, called by any number of threads. */
module VethRefCount {
  import opened Bytes

  // ---------- The four operations without interruption ----------

  /** A use count and whether the link it guards is up. */
  datatype Link = Link(count: int, up: bool)

  function Enabled(l: Link): Link {
    Link(l.count + 1, l.count <= 0 || l.up)
  }

  function Disabled(l: Link): Link {
    if l.count - 1 <= 0 then Link(0, false) else Link(l.count - 1, l.up)
  }

  class Mediator {
    var bridge: Link
    var gateway: Link

    constructor ()
      ensures bridge == gateway == Link(0, false)
    {
      bridge, gateway := Link(0, false), Link(0, false);
    }

    method EnableVethBridge()
      modifies this`bridge
      ensures bridge == Enabled(old(bridge))
    {
      if bridge.count <= 0 {
        bridge := bridge.(up := true);
      }
      bridge := bridge.(count := bridge.count + 1);
    }

    method DisableVethBridge()
      modifies this`bridge
      ensures bridge == Disabled(old(bridge))
    {
      bridge := bridge.(count := bridge.count - 1);
      if bridge.count <= 0 {
        bridge := bridge.(up := false);
        bridge := bridge.(count := 0);
      }
    }

    method EnableVethGateway()
      modifies this
      ensures bridge == Enabled(old(bridge)) && gateway == Enabled(old(gateway))
    {
      EnableVethBridge();
      if gateway.count <= 0 {
        gateway := gateway.(up := true);
      }
      gateway := gateway.(count := gateway.count + 1);
    }

    method DisableVethGateway()
      modifies this
      ensures bridge == Disabled(old(bridge)) && gateway == Disabled(old(gateway))
    {
      DisableVethBridge();
      gateway := gateway.(count := gateway.count - 1);
      if gateway.count <= 0 {
        gateway := gateway.(up := false);
        gateway := gateway.(count := 0);
      }
    }
  }

  // ---------- The same operations, one statement at a time ----------

  datatype Op = EnableBridge | DisableBridge | EnableGateway | DisableGateway {
    predicate OnGateway() {
      EnableGateway? || DisableGateway?
    }

    predicate Enables() {
      EnableBridge? || EnableGateway?
    }
  }

  /** Where a thread is: outside, before one of the locks, or at one of the three
      statements of the bridge or gateway section that the lock guards. */
  datatype Pc =
    | Idle
    | WaitGateway(op: Op)
    | WaitBridge(op: Op)
    | InBridge(op: Op, line: nat)
    | InGateway(op: Op, line: nat)

  /** A thread with the holds it has on the bridge directly and on the gateway. */
  datatype Thread = Thread(pc: Pc, direct: nat, gateway: nat)

  datatype System = System(
    threads: seq<Thread>, bridgeLock: Option<nat>, gatewayLock: Option<nat>, bridge: Link, gateway: Link)

  /** A thread releases only what it holds. */
  predicate MayCall(th: Thread, op: Op) {
    match op
    case EnableBridge => true
    case EnableGateway => true
    case DisableBridge => th.direct > 0
    case DisableGateway => th.gateway > 0
  }

  function Call(s: System, t: nat, op: Op): System
    requires t < |s.threads|
  {
    var pc := if op.OnGateway() then WaitGateway(op) else WaitBridge(op);
    s.(threads := s.threads[t := s.threads[t].(pc := pc)])
  }

  /** A thread inside an operation can go on unless it waits for a taken lock. */
  predicate CanStep(s: System, t: nat) {
    t < |s.threads| &&
    match s.threads[t].pc
    case Idle => false
    case WaitGateway(_) => s.gatewayLock.None?
    case WaitBridge(_) => s.bridgeLock.None?
    case InBridge(_, line) => line < 3
    case InGateway(_, line) => line < 3
  }

  /** One statement of a guarded section; the third line also ends the section. */
  function SectionLine(l: Link, enables: bool, line: nat): Link {
    if enables then
      if line == 0 then (if l.count <= 0 then l.(up := true) else l)
      else if line == 1 then l.(count := l.count + 1)
      else l
    else
      if line == 0 then l.(count := l.count - 1)
      else if line == 1 then (if l.count <= 0 then l.(up := false) else l)
      else (if l.count <= 0 then l.(count := 0) else l)
  }

  /** The holds of a thread when its operation returns. */
  function Finished(th: Thread, op: Op): Thread {
    match op
    case EnableBridge => th.(pc := Idle, direct := th.direct + 1)
    case EnableGateway => th.(pc := Idle, gateway := th.gateway + 1)
    case DisableBridge => th.(pc := Idle, direct := if th.direct > 0 then th.direct - 1 else 0)
    case DisableGateway => th.(pc := Idle, gateway := if th.gateway > 0 then th.gateway - 1 else 0)
  }

  function Step(s: System, t: nat): System
    requires CanStep(s, t)
  {
    var th := s.threads[t];
    match th.pc
    case Idle => s
    case WaitGateway(op) => s.(gatewayLock := Some(t), threads := s.threads[t := th.(pc := WaitBridge(op))])
    case WaitBridge(op) => s.(bridgeLock := Some(t), threads := s.threads[t := th.(pc := InBridge(op, 0))])
    case InBridge(op, line) =>
      var s' := s.(bridge := SectionLine(s.bridge, op.Enables(), line));
      if line < 2 then s'.(threads := s.threads[t := th.(pc := InBridge(op, line + 1))])
      else
        var th' := if op.OnGateway() then th.(pc := InGateway(op, 0)) else Finished(th, op);
        s'.(bridgeLock := None, threads := s.threads[t := th'])
    case InGateway(op, line) =>
      var s' := s.(gateway := SectionLine(s.gateway, op.Enables(), line));
      if line < 2 then s'.(threads := s.threads[t := th.(pc := InGateway(op, line + 1))])
      else s'.(gatewayLock := None, threads := s.threads[t := Finished(th, op)])
  }

  // ---------- The invariant ----------

  /** What a thread contributes to the count of the bridge: its holds, corrected
      while an operation has changed the count but not yet returned. */
  function BridgeShare(th: Thread): int {
    th.direct + th.gateway +
    match th.pc
    case InBridge(op, line) => if op.Enables() then (if line == 2 then 1 else 0) else (if line >= 1 then -1 else 0)
    case InGateway(op, _) => if op.Enables() then 1 else -1
    case _ => 0
  }

  function GatewayShare(th: Thread): int {
    th.gateway +
    match th.pc
    case InGateway(op, line) => if op.Enables() then (if line == 2 then 1 else 0) else (if line >= 1 then -1 else 0)
    case _ => 0
  }

  function BridgeTotal(ths: seq<Thread>): int {
    if ths == [] then 0 else BridgeShare(ths[0]) + BridgeTotal(ths[1..])
  }

  function GatewayTotal(ths: seq<Thread>): int {
    if ths == [] then 0 else GatewayShare(ths[0]) + GatewayTotal(ths[1..])
  }

  predicate HoldsGatewayLock(pc: Pc) {
    match pc
    case WaitBridge(op) => op.OnGateway()
    case InBridge(op, _) => op.OnGateway()
    case InGateway(_, _) => true
    case _ => false
  }

  predicate ThreadOk(th: Thread) {
    match th.pc
    case Idle => true
    case WaitGateway(op) => op.OnGateway() && MayCall(th, op)
    case WaitBridge(op) => MayCall(th, op)
    case InBridge(op, line) => line < 3 && MayCall(th, op)
    case InGateway(op, line) => line < 3 && op.OnGateway() && MayCall(th, op)
  }

  /** Between its first and second statement the section keeps its link up. */
  predicate MidSection(lock: Option<nat>, ths: seq<Thread>, bridge: bool) {
    lock.Some? && lock.value < |ths| &&
    match ths[lock.value].pc
    case InBridge(_, line) => bridge && line == 1
    case InGateway(_, line) => !bridge && line == 1
    case _ => false
  }

  ghost predicate LocksOk(s: System) {
    && (forall t: nat :: s.bridgeLock == Some(t) <==> t < |s.threads| && s.threads[t].pc.InBridge?)
    && (forall t: nat :: s.gatewayLock == Some(t) <==> t < |s.threads| && HoldsGatewayLock(s.threads[t].pc))
  }

  ghost predicate ThreadsOk(ths: seq<Thread>) {
    forall t :: 0 <= t < |ths| ==> ThreadOk(ths[t])
  }

  ghost predicate BridgeOk(s: System) {
    && s.bridge.count == BridgeTotal(s.threads)
    && (s.bridge.up <==> s.bridge.count > 0 || MidSection(s.bridgeLock, s.threads, true))
  }

  ghost predicate GatewayOk(s: System) {
    && s.gateway.count == GatewayTotal(s.threads)
    && (s.gateway.up <==> s.gateway.count > 0 || MidSection(s.gatewayLock, s.threads, false))
  }

  ghost predicate CountsOk(s: System) {
    BridgeOk(s) && GatewayOk(s)
  }

  ghost predicate Invariant(s: System) {
    LocksOk(s) && ThreadsOk(s.threads) && CountsOk(s)
  }

  // ---------- Sums ----------

  lemma {:induction false} TotalsUpdate(ths: seq<Thread>, t: nat, th: Thread)
    requires t < |ths|
    ensures BridgeTotal(ths[t := th]) == BridgeTotal(ths) - BridgeShare(ths[t]) + BridgeShare(th)
    ensures GatewayTotal(ths[t := th]) == GatewayTotal(ths) - GatewayShare(ths[t]) + GatewayShare(th)
  {
    if t == 0 {
      assert ths[t := th][1..] == ths[1..];
    } else {
      assert ths[t := th][1..] == ths[1..][t - 1 := th];
      TotalsUpdate(ths[1..], t - 1, th);
    }
  }

  /** No share is negative, so a total is at least each of its shares. */
  lemma {:induction false} TotalsBound(ths: seq<Thread>)
    requires ThreadsOk(ths)
    ensures BridgeTotal(ths) >= 0 && GatewayTotal(ths) >= 0
    ensures forall t :: 0 <= t < |ths| ==> BridgeTotal(ths) >= BridgeShare(ths[t]) && GatewayTotal(ths) >= GatewayShare(ths[t])
  {
    if ths != [] {
      TotalsBound(ths[1..]);
      assert ThreadOk(ths[0]);
      forall t | 0 <= t < |ths|
        ensures BridgeTotal(ths) >= BridgeShare(ths[t]) && GatewayTotal(ths) >= GatewayShare(ths[t])
      {
        if t > 0 {
          assert ths[t] == ths[1..][t - 1];
        }
      }
    }
  }

  // ---------- Every step keeps the invariant ----------

  lemma LocksKept(s: System, t: nat)
    requires Invariant(s) && CanStep(s, t)
    ensures LocksOk(Step(s, t)) && ThreadsOk(Step(s, t).threads)
  {
    hide SectionLine, CountsOk;
    assert ThreadOk(s.threads[t]);
  }

  lemma BridgeKept(s: System, t: nat)
    requires Invariant(s) && CanStep(s, t)
    ensures BridgeOk(Step(s, t))
  {
    hide GatewayShare, GatewayTotal, GatewayOk;
    var s' := Step(s, t);
    assert ThreadOk(s.threads[t]);
    TotalsUpdate(s.threads, t, s'.threads[t]);
    TotalsBound(s.threads);
  }

  lemma GatewayKept(s: System, t: nat)
    requires Invariant(s) && CanStep(s, t)
    ensures GatewayOk(Step(s, t))
  {
    hide BridgeShare, BridgeTotal, BridgeOk;
    var s' := Step(s, t);
    assert ThreadOk(s.threads[t]);
    TotalsUpdate(s.threads, t, s'.threads[t]);
    TotalsBound(s.threads);
  }

  lemma StepKeepsInvariant(s: System, t: nat)
    requires Invariant(s) && CanStep(s, t)
    ensures Invariant(Step(s, t))
  {
    hide Step, LocksOk, ThreadsOk, BridgeOk, GatewayOk;
    LocksKept(s, t);
    BridgeKept(s, t);
    GatewayKept(s, t);
  }

  lemma CallKeepsInvariant(s: System, t: nat, op: Op)
    requires Invariant(s) && t < |s.threads| && s.threads[t].pc == Idle && MayCall(s.threads[t], op)
    ensures Invariant(Call(s, t, op))
  {
    TotalsUpdate(s.threads, t, Call(s, t, op).threads[t]);
  }

  // ---------- Runs ----------

  /** A schedule: threads start operations and execute statements in any order. */
  datatype Move = Start(t: nat, op: Op) | Advance(t: nat)

  predicate Possible(s: System, m: Move) {
    match m
    case Start(t, op) => t < |s.threads| && s.threads[t].pc == Idle && MayCall(s.threads[t], op)
    case Advance(t) => CanStep(s, t)
  }

  function After(s: System, m: Move): System
    requires Possible(s, m)
  {
    match m
    case Start(t, op) => Call(s, t, op)
    case Advance(t) => Step(s, t)
  }

  ghost predicate Reachable(s: System, n: nat, moves: seq<Move>)
    decreases |moves|
  {
    if moves == [] then s == Initial(n)
    else exists before :: Follows(before, n, moves, s)
  }

  ghost predicate Follows(before: System, n: nat, moves: seq<Move>, s: System)
    requires moves != []
    decreases |moves|, 0
  {
    var last := moves[|moves| - 1];
    Reachable(before, n, moves[..|moves| - 1]) && Possible(before, last) && s == After(before, last)
  }

  function Initial(n: nat): System {
    System(seq(n, _ => Thread(Idle, 0, 0)), None, None, Link(0, false), Link(0, false))
  }

  lemma {:induction false} NoShares(ths: seq<Thread>)
    requires forall t :: 0 <= t < |ths| ==> ths[t] == Thread(Idle, 0, 0)
    ensures BridgeTotal(ths) == 0 && GatewayTotal(ths) == 0
  {
    if ths != [] {
      NoShares(ths[1..]);
    }
  }

  lemma {:induction false} ReachableMeansInvariant(s: System, n: nat, moves: seq<Move>)
    requires Reachable(s, n, moves)
    ensures Invariant(s)
    decreases |moves|
  {
    if moves == [] {
      NoShares(s.threads);
    } else {
      hide Invariant;
      var before :| Follows(before, n, moves, s);
      ReachableMeansInvariant(before, n, moves[..|moves| - 1]);
      match moves[|moves| - 1]
      case Start(t, op) => CallKeepsInvariant(before, t, op);
      case Advance(t) => StepKeepsInvariant(before, t);
    }
  }

  /** All holds of all threads, as their callers see them. */
  function DirectHolds(ths: seq<Thread>): nat {
    if ths == [] then 0 else ths[0].direct + DirectHolds(ths[1..])
  }

  function GatewayHolds(ths: seq<Thread>): nat {
    if ths == [] then 0 else ths[0].gateway + GatewayHolds(ths[1..])
  }

  lemma {:induction false} SharesAreHolds(ths: seq<Thread>)
    requires forall t :: 0 <= t < |ths| ==> !ths[t].pc.InBridge? && !ths[t].pc.InGateway?
    ensures BridgeTotal(ths) == DirectHolds(ths) + GatewayHolds(ths) && GatewayTotal(ths) == GatewayHolds(ths)
  {
    if ths != [] {
      SharesAreHolds(ths[1..]);
    }
  }

  /** Whenever no lock is held, in any interleaving of any number of threads:
      each link is up iff its count is positive, the bridge is counted once per
      direct hold and once per gateway hold, and the gateway never lacks its bridge. */
  lemma QuiescentState(s: System, n: nat, moves: seq<Move>)
    requires Reachable(s, n, moves) && s.bridgeLock == None && s.gatewayLock == None
    ensures s.bridge.up <==> s.bridge.count > 0
    ensures s.gateway.up <==> s.gateway.count > 0
    ensures s.bridge.count == DirectHolds(s.threads) + GatewayHolds(s.threads)
    ensures s.gateway.count == GatewayHolds(s.threads)
    ensures s.gateway.up ==> s.bridge.up
  {
    ReachableMeansInvariant(s, n, moves);
    hide Reachable;
    forall t | 0 <= t < |s.threads| ensures !s.threads[t].pc.InBridge? && !s.threads[t].pc.InGateway? {
      assert s.bridgeLock != Some(t) && s.gatewayLock != Some(t);
    }
    SharesAreHolds(s.threads);
  }

  // ---------- No deadlock ----------

  /** As long as some thread is inside an operation, some thread can go on. */
  lemma NoDeadlock(s: System, n: nat, moves: seq<Move>)
    requires Reachable(s, n, moves)
    requires exists t :: 0 <= t < |s.threads| && s.threads[t].pc != Idle
    ensures exists t: nat :: CanStep(s, t)
  {
    ReachableMeansInvariant(s, n, moves);
    hide Reachable, CountsOk;
    if s.bridgeLock.Some? {
      var t := s.bridgeLock.value;
      assert s.threads[t].pc.InBridge? && ThreadOk(s.threads[t]);
      assert CanStep(s, t);
    } else if s.gatewayLock.Some? {
      var t := s.gatewayLock.value;
      assert s.bridgeLock != Some(t);
      assert HoldsGatewayLock(s.threads[t].pc) && ThreadOk(s.threads[t]);
      assert CanStep(s, t);
    } else {
      var t :| 0 <= t < |s.threads| && s.threads[t].pc != Idle;
      assert s.bridgeLock != Some(t) && s.gatewayLock != Some(t);
      assert CanStep(s, t);
    }
  }

  /** How many statements a thread has left in its operation. */
  function Left(pc: Pc): nat {
    match pc
    case Idle => 0
    case WaitGateway(_) => 8
    case WaitBridge(op) => if op.OnGateway() then 7 else 4
    case InBridge(op, line) => (if op.OnGateway() then 3 else 0) + (if line < 3 then 3 - line else 0)
    case InGateway(_, line) => if line < 3 then 3 - line else 0
  }

  function TotalLeft(ths: seq<Thread>): nat {
    if ths == [] then 0 else Left(ths[0].pc) + TotalLeft(ths[1..])
  }

  lemma {:induction false} TotalLeftUpdate(ths: seq<Thread>, t: nat, th: Thread)
    requires t < |ths|
    ensures TotalLeft(ths[t := th]) == TotalLeft(ths) - Left(ths[t].pc) + Left(th.pc)
  {
    if t == 0 {
      assert ths[t := th][1..] == ths[1..];
    } else {
      assert ths[t := th][1..] == ths[1..][t - 1 := th];
      TotalLeftUpdate(ths[1..], t - 1, th);
    }
  }

  /** Every statement brings some operation one statement closer to its end, so
      in every schedule the operations under way return after at most eight
      statements each. */
  lemma StepMakesProgress(s: System, t: nat)
    requires Invariant(s) && CanStep(s, t)
    ensures TotalLeft(Step(s, t).threads) == TotalLeft(s.threads) - 1
  {
    hide CountsOk, LocksOk, SectionLine;
    assert ThreadOk(s.threads[t]);
    TotalLeftUpdate(s.threads, t, Step(s, t).threads[t]);
  }

  ghost predicate CanRun(s: System, schedule: seq<nat>)
    decreases |schedule|
  {
    schedule == [] || (CanStep(s, schedule[0]) && CanRun(Step(s, schedule[0]), schedule[1..]))
  }

  /** No schedule can keep the operations under way from returning. */
  lemma {:induction false} OperationsReturn(s: System, schedule: seq<nat>)
    requires Invariant(s) && CanRun(s, schedule)
    ensures |schedule| <= TotalLeft(s.threads) <= 8 * |s.threads|
    decreases |schedule|
  {
    hide Invariant, Step;
    LeftIsBounded(s.threads);
    if schedule != [] {
      StepMakesProgress(s, schedule[0]);
      StepKeepsInvariant(s, schedule[0]);
      OperationsReturn(Step(s, schedule[0]), schedule[1..]);
    }
  }

  lemma {:induction false} LeftIsBounded(ths: seq<Thread>)
    ensures TotalLeft(ths) <= 8 * |ths|
  {
    if ths != [] {
      LeftIsBounded(ths[1..]);
    }
  }

  // ---------- One thread alone does what the methods do ----------

  function StepsAlone(s: System, t: nat, k: nat): System
    decreases k
  {
    if k == 0 || !CanStep(s, t) then s else StepsAlone(Step(s, t), t, k - 1)
  }

  lemma {:induction false} StepsAdd(s: System, t: nat, a: nat, b: nat)
    ensures StepsAlone(s, t, a + b) == StepsAlone(StepsAlone(s, t, a), t, b)
    decreases a
  {
    hide Step, CanStep;
    if a > 0 && CanStep(s, t) {
      StepsAdd(Step(s, t), t, a - 1, b);
    }
  }

  function Operation(l: Link, enables: bool): Link {
    if enables then Enabled(l) else Disabled(l)
  }

  lemma SectionIsOperation(l: Link, enables: bool)
    ensures SectionLine(SectionLine(SectionLine(l, enables, 0), enables, 1), enables, 2) == Operation(l, enables)
  {
  }

  lemma BridgeSectionAlone(s: System, t: nat, op: Op)
    requires t < |s.threads| && s.threads[t].pc == WaitBridge(op) && s.bridgeLock == None
    ensures StepsAlone(s, t, 4)
         == s.(bridge := Operation(s.bridge, op.Enables()),
               threads := s.threads[t := if op.OnGateway() then s.threads[t].(pc := InGateway(op, 0))
                                         else Finished(s.threads[t], op)])
  {
    hide SectionLine, Operation;
    var th, e := s.threads[t], op.Enables();
    var b1 := SectionLine(s.bridge, e, 0);
    var b2 := SectionLine(b1, e, 1);
    SectionIsOperation(s.bridge, e);
    var s1 := s.(bridgeLock := Some(t), threads := s.threads[t := th.(pc := InBridge(op, 0))]);
    var s2 := s1.(bridge := b1, threads := s.threads[t := th.(pc := InBridge(op, 1))]);
    var s3 := s2.(bridge := b2, threads := s.threads[t := th.(pc := InBridge(op, 2))]);
    assert Step(s, t) == s1;
    assert s1.threads[t := s2.threads[t]] == s2.threads && Step(s1, t) == s2;
    assert s2.threads[t := s3.threads[t]] == s3.threads && Step(s2, t) == s3;
    var s4 := Step(s3, t);
    assert Finished(s3.threads[t], op) == Finished(th, op);
    assert s4.threads == s.threads[t := s4.threads[t]];
    assert s4 == s.(bridge := Operation(s.bridge, e),
                    threads := s.threads[t := if op.OnGateway() then th.(pc := InGateway(op, 0)) else Finished(th, op)]);
    hide Step;
    assert StepsAlone(s3, t, 1) == StepsAlone(s4, t, 0) == s4;
    assert StepsAlone(s2, t, 2) == s4;
    assert StepsAlone(s1, t, 3) == s4;
  }

  lemma GatewaySectionAlone(s: System, t: nat, op: Op)
    requires t < |s.threads| && s.threads[t].pc == InGateway(op, 0)
    ensures StepsAlone(s, t, 3)
         == s.(gateway := Operation(s.gateway, op.Enables()), gatewayLock := None,
               threads := s.threads[t := Finished(s.threads[t], op)])
  {
    hide SectionLine, Operation;
    var th, e := s.threads[t], op.Enables();
    var g1 := SectionLine(s.gateway, e, 0);
    var g2 := SectionLine(g1, e, 1);
    SectionIsOperation(s.gateway, e);
    var s1 := s.(gateway := g1, threads := s.threads[t := th.(pc := InGateway(op, 1))]);
    var s2 := s1.(gateway := g2, threads := s.threads[t := th.(pc := InGateway(op, 2))]);
    assert Step(s, t) == s1;
    assert s1.threads[t := s2.threads[t]] == s2.threads && Step(s1, t) == s2;
    var s3 := Step(s2, t);
    assert s3.threads == s.threads[t := s3.threads[t]];
    assert StepsAlone(s2, t, 1) == StepsAlone(s3, t, 0) == s3;
    assert StepsAlone(s1, t, 2) == s3;
  }

  /** An operation that no other thread interrupts has exactly the effect of the
      method of the same name. */
  lemma AloneIsMethod(s: System, t: nat, op: Op)
    requires t < |s.threads| && s.threads[t].pc == Idle && s.bridgeLock == None && s.gatewayLock == None
    ensures var s' := StepsAlone(Call(s, t, op), t, Left(Call(s, t, op).threads[t].pc));
      && s'.bridge == Operation(s.bridge, op.Enables())
      && s'.gateway == (if op.OnGateway() then Operation(s.gateway, op.Enables()) else s.gateway)
      && s'.bridgeLock == None && s'.gatewayLock == None
      && s'.threads == s.threads[t := Finished(s.threads[t], op)]
  {
    hide Operation, SectionLine;
    var c := Call(s, t, op);
    if op.OnGateway() {
      var s1 := Step(c, t);
      BridgeSectionAlone(s1, t, op);
      var s5 := StepsAlone(s1, t, 4);
      GatewaySectionAlone(s5, t, op);
      StepsAdd(s1, t, 4, 3);
      assert StepsAlone(c, t, 8) == StepsAlone(s1, t, 7);
      assert s5.threads[t := Finished(s5.threads[t], op)] == s.threads[t := Finished(s.threads[t], op)];
    } else {
      BridgeSectionAlone(c, t, op);
      assert c.threads[t := Finished(c.threads[t], op)] == s.threads[t := Finished(s.threads[t], op)];
    }
  }
}
