/** How the tunnel server reconciles the SIM cards of a provider with a
    registration request: `register_provider` in moatt_server/auth.py over the
    tables of moatt_server/models.py. */
module SimRegistration {
  import opened Bytes

  type ProviderId = nat
  /** The primary key of the table `sims`: a provider and its own id of a card. */
  type SimKey = (ProviderId, nat)

  datatype Provider = Provider(lastActive: Option<int>, allowReregistration: bool)
  datatype Card = Card(iccid: Option<string>, imsi: Option<string>)
  datatype Sim = Sim(card: Card, inUse: bool)

  datatype Db = Db(providers: map<ProviderId, Provider>, sims: map<SimKey, Sim>)

  /** A request maps the provider's ids to cards. */
  type Request = map<nat, Card>

  // ---------- Constraints ----------

  /** Two cards that a unique column keeps apart. */
  predicate Collide(a: Card, b: Card) {
    (a.iccid.Some? && a.iccid == b.iccid) || (a.imsi.Some? && a.imsi == b.imsi)
  }

  /** Every row has its provider, and ICCIDs and IMSIs are unique table-wide. */
  ghost predicate Consistent(db: Db) {
    && (forall k <- db.sims :: k.0 in db.providers)
    && (forall k <- db.sims, k' <- db.sims :: k != k' ==> !Collide(db.sims[k].card, db.sims[k'].card))
  }

  /** The validator of the REST model: no card is listed twice. */
  ghost predicate NoDuplicates(req: Request) {
    forall i <- req, j <- req :: i != j ==> !Collide(req[i], req[j])
  }

  // ---------- Specification ----------

  /** The configured life time and the current time. */
  datatype Clock = Clock(ttl: Option<int>, now: int)

  predicate IsExpired(p: Provider, clock: Clock) {
    clock.ttl.Some? && p.lastActive.Some? && clock.now - p.lastActive.value > clock.ttl.value
  }

  /** Rows that the request's query finds: the id, of whatever provider, or a card number. */
  predicate Matches(req: Request, k: SimKey, s: Sim) {
    k.1 in req || exists i <- req :: Collide(s.card, req[i])
  }

  function Existing(db: Db, req: Request): set<SimKey> {
    set k <- db.sims | Matches(req, k, db.sims[k])
  }

  function RemovedRows(db: Db, me: ProviderId, req: Request): set<SimKey> {
    set k <- db.sims | k.0 == me && k.1 !in req
  }

  /** The provider is known and its rows outside the request are gone. */
  function Prepared(db: Db, me: ProviderId, req: Request, clock: Clock): Db {
    Db(if me in db.providers then db.providers else db.providers[me := Provider(Some(clock.now), true)],
       db.sims - RemovedRows(db, me, req))
  }

  /** A matching row that no rule lets the provider take over. */
  predicate Blocks(db: Db, me: ProviderId, clock: Clock, k: SimKey)
    requires k.0 in db.providers
  {
    var p := db.providers[k.0];
    k.0 != me && !IsExpired(p, clock) && !p.allowReregistration
  }

  function Kept(db: Db, me: ProviderId, req: Request): set<nat> {
    set i <- req | (me, i) in db.sims && db.sims[(me, i)].card == req[i]
  }

  function ExpiredOwners(db: Db, me: ProviderId, clock: Clock, rows: set<SimKey>): set<ProviderId>
    requires forall k <- rows :: k.0 in db.providers
  {
    set k <- rows | k.0 != me && IsExpired(db.providers[k.0], clock) :: k.0
  }

  /** Matching rows that are deleted one by one. */
  function DeletedRows(db: Db, me: ProviderId, req: Request, clock: Clock, rows: set<SimKey>): set<SimKey>
    requires forall k <- rows :: k.0 in db.providers && k in db.sims && (k.0 == me ==> k.1 in req)
  {
    set k <- rows | if k.0 == me then db.sims[k].card != req[k.1] else !IsExpired(db.providers[k.0], clock)
  }

  function WithoutOwners(sims: map<SimKey, Sim>, owners: set<ProviderId>): map<SimKey, Sim> {
    map k <- sims | k.0 !in owners :: sims[k]
  }

  function NewRows(me: ProviderId, req: Request, ids: set<nat>): map<SimKey, Sim>
    requires ids <= req.Keys
  {
    map k: SimKey | k in (set i <- ids :: (me, i)) :: Sim(req[k.1], false)
  }

  lemma ExistingShape(db: Db, me: ProviderId, req: Request, clock: Clock)
    requires Consistent(db)
    ensures var db1 := Prepared(db, me, req, clock);
      forall k <- Existing(db1, req) :: k in db1.sims && k.0 in db1.providers && (k.0 == me ==> k.1 in req)
    ensures var db1 := Prepared(db, me, req, clock);
      Kept(db1, me, req) == set i <- req | (me, i) in Existing(db1, req) && db1.sims[(me, i)].card == req[i]
  {
  }

  /** After the deletions no row is in the way of a new one. */
  lemma RowsAreFree(db: Db, me: ProviderId, req: Request, clock: Clock)
    requires Consistent(db) && NoDuplicates(req)
    requires var db1 := Prepared(db, me, req, clock);
      forall k <- Existing(db1, req) :: k in db1.sims && k.0 in db1.providers && (k.0 == me ==> k.1 in req)
    requires var db1 := Prepared(db, me, req, clock); !exists k <- Existing(db1, req) :: Blocks(db1, me, clock, k)
    ensures var db1 := Prepared(db, me, req, clock);
      var rows := Existing(db1, req);
      var owners := ExpiredOwners(db1, me, clock, rows);
      var left := WithoutOwners(db1.sims - DeletedRows(db1, me, req, clock, rows), owners);
      && me in db1.providers - owners
      && forall i <- req.Keys - Kept(db1, me, req), k <- left :: k != (me, i) && !Collide(req[i], left[k].card)
  {
    var db1 := Prepared(db, me, req, clock);
    var rows := Existing(db1, req);
    var owners := ExpiredOwners(db1, me, clock, rows);
    var left := WithoutOwners(db1.sims - DeletedRows(db1, me, req, clock, rows), owners);
    forall i <- req.Keys - Kept(db1, me, req), k <- left
      ensures k != (me, i) && !Collide(req[i], left[k].card)
    {
      if k.0 == me {
        assert k.1 in req && k in rows;
        assert k.1 in Kept(db1, me, req);
      } else {
        assert k !in rows;
        assert !Matches(req, k, db1.sims[k]);
      }
    }
  }

  datatype Outcome = Registered(db: Db, modified: bool) | AuthError | IntegrityError

  predicate PreparedIsModified(db: Db, me: ProviderId, req: Request) {
    me !in db.providers || RemovedRows(db, me, req) != {}
  }

  function RegisterOf(db: Db, me: ProviderId, req: Request, clock: Clock): Outcome
    requires Consistent(db)
  {
    var db1 := Prepared(db, me, req, clock);
    var rows := Existing(db1, req);
    ExistingShape(db, me, req, clock);
    if req == map[] then Registered(db1, PreparedIsModified(db, me, req))
    else if exists k <- rows :: Blocks(db1, me, clock, k) then AuthError
    else
      var owners := ExpiredOwners(db1, me, clock, rows);
      var left := WithoutOwners(db1.sims - DeletedRows(db1, me, req, clock, rows), owners);
      var newIds := req.Keys - Kept(db1, me, req);
      Registered(Db(db1.providers - owners, left + NewRows(me, req, newIds)),
                 PreparedIsModified(db, me, req) || newIds != {})
  }

  // ---------- The transaction ----------

  /** A database session: the tables and the deletions that wait for a flush. */
  class Session {
    var db: Db
    var deletedSims: set<SimKey>
    var deletedProviders: set<ProviderId>

    constructor (db: Db)
      ensures this.db == db && deletedSims == {} && deletedProviders == {}
    {
      this.db, deletedSims, deletedProviders := db, {}, {};
    }

    /** Deleting a provider cascades to its rows. */
    method Flush()
      modifies this
      ensures db == Db(old(db).providers - old(deletedProviders),
                       WithoutOwners(old(db).sims - old(deletedSims), old(deletedProviders)))
      ensures deletedSims == {} && deletedProviders == {}
    {
      db := Db(db.providers - deletedProviders, WithoutOwners(db.sims - deletedSims, deletedProviders));
      deletedSims, deletedProviders := {}, {};
    }

    /** An insertion, refused when a constraint of the table is violated. */
    method Insert(k: SimKey, s: Sim) returns (ok: bool)
      modifies this`db
      ensures ok <==> k.0 in old(db).providers && k !in old(db).sims
                      && forall k' <- old(db).sims :: !Collide(s.card, old(db).sims[k'].card)
      ensures db == if ok then Db(old(db).providers, old(db).sims[k := s]) else old(db)
    {
      ok := k.0 in db.providers && k !in db.sims && forall k' <- db.sims :: !Collide(s.card, db.sims[k'].card);
      if ok {
        db := Db(db.providers, db.sims[k := s]);
      }
    }

    /** `register_provider` for an authorised session token of provider `me`,
        with the rollback of the enclosing transaction. */
    method RegisterProvider(me: ProviderId, req: Request, clock: Clock) returns (r: Outcome)
      requires Consistent(db) && NoDuplicates(req) && deletedSims == {} && deletedProviders == {}
      modifies this
      ensures r == RegisterOf(old(db), me, req, clock)
      ensures db == if r.Registered? then r.db else old(db)
      ensures deletedSims == {} && deletedProviders == {}
    {
      hide Existing, DeletedRows, ExpiredOwners, Kept, Blocks;
      ghost var before := db;
      var saved := db;
      var modified := Prepare(me, req, clock);
      if |req| == 0 {
        assert req == map[];
        return Registered(db, modified);
      }
      assert forall k <- db.sims :: k.0 in db.providers;
      var existing := Existing(db, req);
      ExistingShape(before, me, req, clock);
      var db1 := db;
      var blocked, newIds := MarkRows(me, req, clock, existing);
      if blocked {
        db, deletedSims, deletedProviders := saved, {}, {};
        return AuthError;
      }
      if |newIds| > 0 {
        modified := true;
      }
      Flush();
      RowsAreFree(before, me, req, clock);
      var ok := InsertAll(me, req, newIds);
      assert ok;
      r := Registered(db, modified);
    }

    method Prepare(me: ProviderId, req: Request, clock: Clock) returns (modified: bool)
      requires Consistent(db) && deletedSims == {} && deletedProviders == {}
      modifies this
      ensures db == Prepared(old(db), me, req, clock) && modified == PreparedIsModified(old(db), me, req)
      ensures deletedSims == {} && deletedProviders == {}
    {
      modified := false;
      if me !in db.providers {
        modified := true;
        db := db.(providers := db.providers[me := Provider(Some(clock.now), true)]);
      }
      var removed := set k <- db.sims | k.0 == me && k.1 !in req;
      assert removed == RemovedRows(old(db), me, req);
      if |removed| > 0 {
        modified := true;
      }
      var todo := removed;
      while todo != {}
        invariant todo <= removed && deletedSims == removed - todo && deletedProviders == {}
        invariant db.sims == old(db).sims && db.providers == Prepared(old(db), me, req, clock).providers
        decreases todo
      {
        var k :| k in todo;
        deletedSims := deletedSims + {k};
        todo := todo - {k};
      }
      Flush();
      assert db.sims == old(db).sims - removed;
    }

    /** The loop over the matching rows; `newIds` are the ids to be inserted. */
    method MarkRows(me: ProviderId, req: Request, clock: Clock, existing: set<SimKey>)
      returns (blocked: bool, newIds: set<nat>)
      requires deletedSims == {} && deletedProviders == {}
      requires forall k <- existing :: k in db.sims && k.0 in db.providers && (k.0 == me ==> k.1 in req)
      modifies this`deletedSims, this`deletedProviders
      ensures blocked <==> exists k <- existing :: Blocks(db, me, clock, k)
      ensures !blocked ==> deletedSims == DeletedRows(db, me, req, clock, existing)
      ensures !blocked ==> deletedProviders == ExpiredOwners(db, me, clock, existing)
      ensures !blocked ==>
        newIds == req.Keys - set i <- req | (me, i) in existing && db.sims[(me, i)].card == req[i]
    {
      newIds := req.Keys;
      var todo := existing;
      while todo != {}
        invariant todo <= existing
        invariant forall k <- existing - todo :: !Blocks(db, me, clock, k)
        invariant deletedSims == DeletedRows(db, me, req, clock, existing - todo)
        invariant deletedProviders == ExpiredOwners(db, me, clock, existing - todo)
        invariant newIds == req.Keys - set i <- req | (me, i) in existing - todo && db.sims[(me, i)].card == req[i]
        decreases todo
      {
        var k :| k in todo;
        ghost var done := existing - todo;
        var sim := db.sims[k];
        todo := todo - {k};
        assert existing - todo == done + {k};
        if k.0 == me {
          if sim.card != req[k.1] {
            deletedSims := deletedSims + {k};
          } else {
            newIds := newIds - {k.1};
          }
        } else if IsExpired(db.providers[k.0], clock) {
          deletedProviders := deletedProviders + {k.0};
        } else if db.providers[k.0].allowReregistration {
          deletedSims := deletedSims + {k};
        } else {
          assert Blocks(db, me, clock, k);
          return true, newIds;
        }
      }
      assert existing - todo == existing;
      return false, newIds;
    }

    method InsertAll(me: ProviderId, req: Request, ids: set<nat>) returns (ok: bool)
      requires ids <= req.Keys && me in db.providers && NoDuplicates(req)
      requires forall i <- ids, k <- db.sims :: k != (me, i) && !Collide(req[i], db.sims[k].card)
      modifies this`db
      ensures ok && db == Db(old(db).providers, old(db).sims + NewRows(me, req, ids))
    {
      hide NewRows, Collide;
      var todo := ids;
      ghost var base := db.sims;
      NewRowsGrow(base, me, req, {});
      assert ids - todo == {};
      while todo != {}
        invariant todo <= ids && db.providers == old(db).providers
        invariant db.sims == base + NewRows(me, req, ids - todo)
        decreases todo
      {
        var i :| i in todo;
        ghost var done := ids - todo;
        NothingCollides(base, me, req, done, i);
        NewRowsGrow(base, me, req, done);
        var inserted := Insert((me, i), Sim(req[i], false));
        todo := todo - {i};
        assert ids - todo == done + {i};
        if !inserted {
          return false;
        }
      }
      assert ids - todo == ids;
      return true;
    }
  }

  lemma NewRowsGrow(base: map<SimKey, Sim>, me: ProviderId, req: Request, done: set<nat>)
    requires done <= req.Keys
    ensures base + NewRows(me, req, {}) == base
    ensures forall i <- req :: i !in done ==>
      (base + NewRows(me, req, done))[(me, i) := Sim(req[i], false)] == base + NewRows(me, req, done + {i})
  {
    forall i <- req | i !in done
      ensures (base + NewRows(me, req, done))[(me, i) := Sim(req[i], false)] == base + NewRows(me, req, done + {i})
    {
      assert NewRows(me, req, done + {i}) == NewRows(me, req, done)[(me, i) := Sim(req[i], false)];
    }
  }

  lemma NothingCollides(base: map<SimKey, Sim>, me: ProviderId, req: Request, done: set<nat>, i: nat)
    requires done <= req.Keys && i in req && i !in done && NoDuplicates(req)
    requires forall k <- base :: k != (me, i) && !Collide(req[i], base[k].card)
    ensures var sims := base + NewRows(me, req, done);
      (me, i) !in sims && forall k <- sims :: !Collide(req[i], sims[k].card)
  {
    hide Collide;
  }

  // ---------- What a registration achieves ----------

  /** The cards registered for a provider, by its own ids. */
  ghost function CardsOf(db: Db, me: ProviderId): Request {
    map i: nat | i in (set k <- db.sims | k.0 == me :: k.1) :: db.sims[(me, i)].card
  }

  lemma CardsAreRows(db: Db, me: ProviderId, i: nat)
    ensures i in CardsOf(db, me) <==> (me, i) in db.sims
    ensures (me, i) in db.sims ==> CardsOf(db, me)[i] == db.sims[(me, i)].card
  {
    if (me, i) in db.sims {
      assert (me, i).0 == me && (me, i).1 == i;
    }
  }

  /** A row of the result in terms of the old rows. */
  lemma RowAfter(db: Db, me: ProviderId, req: Request, clock: Clock, k: SimKey)
    requires Consistent(db) && RegisterOf(db, me, req, clock).Registered?
    ensures var sims := RegisterOf(db, me, req, clock).db.sims;
      && (k.0 == me ==> (k in sims <==> k.1 in req))
      && (k.0 == me && k.1 in req ==>
           sims[k] == if k in db.sims && db.sims[k].card == req[k.1] then db.sims[k] else Sim(req[k.1], false))
      && (k.0 != me ==> (k in sims <==> k in db.sims && !Matches(req, k, db.sims[k]) && !LosesOwner(db, me, req, clock, k.0)))
      && (k.0 != me && k in sims ==> sims[k] == db.sims[k])
  {
    hide IsExpired, Collide;
    if req == map[] {
      assert k in db.sims ==> !Matches(req, k, db.sims[k]);
      assert !LosesOwner(db, me, req, clock, k.0);
    } else {
      var db1 := Prepared(db, me, req, clock);
      var rows := Existing(db1, req);
      ExistingShape(db, me, req, clock);
      var owners := ExpiredOwners(db1, me, clock, rows);
      if k.0 != me {
        assert k.0 in owners <==> LosesOwner(db, me, req, clock, k.0);
        assert k in db.sims ==> (k in rows <==> Matches(req, k, db.sims[k]));
      }
    }
  }

  /** Another provider has expired and one of its rows is in the way. */
  ghost predicate LosesOwner(db: Db, me: ProviderId, req: Request, clock: Clock, p: ProviderId)
    requires Consistent(db)
  {
    p != me && p in db.providers && IsExpired(db.providers[p], clock)
    && exists k <- db.sims :: k.0 == p && Matches(req, k, db.sims[k])
  }

  /** On success the provider's rows are exactly the request, also where cards
      have swapped places, and a row that did not change keeps `in_use`. */
  lemma RowsEqualRequest(db: Db, me: ProviderId, req: Request, clock: Clock)
    requires Consistent(db) && RegisterOf(db, me, req, clock).Registered?
    ensures CardsOf(RegisterOf(db, me, req, clock).db, me) == req
    ensures var sims := RegisterOf(db, me, req, clock).db.sims;
      forall i <- req :: (me, i) in db.sims && db.sims[(me, i)].card == req[i] ==> (me, i) in sims && sims[(me, i)] == db.sims[(me, i)]
  {
    var db' := RegisterOf(db, me, req, clock).db;
    hide RegisterOf;
    forall i: nat ensures i in CardsOf(db', me) <==> i in req {
      RowAfter(db, me, req, clock, (me, i));
      CardsAreRows(db', me, i);
    }
    forall i <- req ensures CardsOf(db', me)[i] == req[i] {
      RowAfter(db, me, req, clock, (me, i));
      CardsAreRows(db', me, i);
    }
    forall i <- req | (me, i) in db.sims && db.sims[(me, i)].card == req[i]
      ensures (me, i) in db'.sims && db'.sims[(me, i)] == db.sims[(me, i)]
    {
      RowAfter(db, me, req, clock, (me, i));
    }
  }

  /** Rows of other providers are only ever removed, and exactly when they match
      the request or their provider has expired and is in the way. */
  lemma OthersIff(db: Db, me: ProviderId, req: Request, clock: Clock, k: SimKey)
    requires Consistent(db) && RegisterOf(db, me, req, clock).Registered? && k.0 != me
    ensures var sims := RegisterOf(db, me, req, clock).db.sims;
      && (k in sims ==> k in db.sims && sims[k] == db.sims[k])
      && (k in db.sims ==> (k in sims <==> !Matches(req, k, db.sims[k]) && !LosesOwner(db, me, req, clock, k.0)))
  {
    RowAfter(db, me, req, clock, k);
  }

  /** A row of a live provider that shares no card number with the request stays
      iff its local id is not in the request either. */
  lemma LiveRowStaysIff(db: Db, me: ProviderId, req: Request, clock: Clock, k: SimKey)
    requires Consistent(db) && RegisterOf(db, me, req, clock).Registered?
    requires k in db.sims && k.0 != me && !IsExpired(db.providers[k.0], clock)
    requires forall i <- req :: !Collide(db.sims[k].card, req[i])
    ensures k in RegisterOf(db, me, req, clock).db.sims <==> k.1 !in req
  {
    hide IsExpired, Collide, RegisterOf;
    OthersIff(db, me, req, clock, k);
  }

  /** Provider 1 has its card number 7 under the local id 5; provider 2 registers
      another card under the same id, and the row of provider 1 is gone. */
  lemma SameLocalIdRemovesRow()
    ensures var db := Db(map[1 := Provider(Some(100), true)], map[(1, 5) := Sim(Card(Some("7"), None), false)]);
      var req := map[5 := Card(Some("8"), None)];
      var r := RegisterOf(db, 2, req, Clock(Some(60), 100));
      && Consistent(db) && NoDuplicates(req) && !Collide(db.sims[(1, 5)].card, req[5])
      && r.Registered? && (1, 5) !in r.db.sims && (2, 5) in r.db.sims
  {
    var db := Db(map[1 := Provider(Some(100), true)], map[(1, 5) := Sim(Card(Some("7"), None), false)]);
    var req := map[5 := Card(Some("8"), None)];
    var clock := Clock(Some(60), 100);
    assert "7"[0] != "8"[0];
    assert Consistent(db);
    hide RegisterOf;
    RefusedIff(db, 2, req, clock);
    assert !Blocks(db, 2, clock, (1, 5));
    assert RegisterOf(db, 2, req, clock).Registered?;
    LiveRowStaysIff(db, 2, req, clock, (1, 5));
    RowAfter(db, 2, req, clock, (2, 5));
  }

  lemma ConsistencyKept(db: Db, me: ProviderId, req: Request, clock: Clock)
    requires Consistent(db) && NoDuplicates(req) && RegisterOf(db, me, req, clock).Registered?
    ensures Consistent(RegisterOf(db, me, req, clock).db)
  {
    var db' := RegisterOf(db, me, req, clock).db;
    ProvidersAfter(db, me, req, clock);
    hide RegisterOf, Collide;
    forall k <- db'.sims ensures k.0 in db'.providers {
      RowAfter(db, me, req, clock, k);
    }
    forall k <- db'.sims, k' <- db'.sims | k != k' ensures !Collide(db'.sims[k].card, db'.sims[k'].card) {
      RowAfter(db, me, req, clock, k);
      RowAfter(db, me, req, clock, k');
      RowsApart(db, me, req, clock, k, k');
    }
  }

  lemma CollideSymmetric(a: Card, b: Card)
    ensures Collide(a, b) <==> Collide(b, a)
  {
  }

  lemma RowsApart(db: Db, me: ProviderId, req: Request, clock: Clock, k: SimKey, k': SimKey)
    requires Consistent(db) && NoDuplicates(req) && RegisterOf(db, me, req, clock).Registered? && k != k'
    requires k in RegisterOf(db, me, req, clock).db.sims && k' in RegisterOf(db, me, req, clock).db.sims
    ensures var sims := RegisterOf(db, me, req, clock).db.sims; !Collide(sims[k].card, sims[k'].card)
  {
    hide RegisterOf, Collide;
    RowAfter(db, me, req, clock, k);
    RowAfter(db, me, req, clock, k');
    var sims := RegisterOf(db, me, req, clock).db.sims;
    CollideSymmetric(sims[k].card, sims[k'].card);
    if k.0 == me && k'.0 == me {
      assert sims[k].card == req[k.1] && sims[k'].card == req[k'.1] && k.1 != k'.1;
    }
  }

  /** The providers that remain. */
  lemma ProvidersAfter(db: Db, me: ProviderId, req: Request, clock: Clock)
    requires Consistent(db) && RegisterOf(db, me, req, clock).Registered?
    ensures var ps := RegisterOf(db, me, req, clock).db.providers;
      && me in ps && (me in db.providers ==> ps[me] == db.providers[me])
      && (forall p :: p != me ==> (p in ps <==> p in db.providers && !LosesOwner(db, me, req, clock, p)))
      && (forall p <- ps :: p != me ==> ps[p] == db.providers[p])
  {
    hide IsExpired, Collide, Kept, DeletedRows, WithoutOwners, NewRows, PreparedIsModified;
    if req == map[] {
      assert forall k <- db.sims :: !Matches(req, k, db.sims[k]);
    } else {
      var db1 := Prepared(db, me, req, clock);
      var rows := Existing(db1, req);
      ExistingShape(db, me, req, clock);
      var owners := ExpiredOwners(db1, me, clock, rows);
      forall p | p != me ensures p in owners <==> LosesOwner(db, me, req, clock, p) {
        if LosesOwner(db, me, req, clock, p) {
          var k :| k in db.sims && k.0 == p && Matches(req, k, db.sims[k]);
          assert k in rows;
        }
      }
    }
  }

  /** A registration is refused iff a live provider that does not allow it would
      lose a row. */
  lemma RefusedIff(db: Db, me: ProviderId, req: Request, clock: Clock)
    requires Consistent(db)
    ensures RegisterOf(db, me, req, clock) != IntegrityError
    ensures RegisterOf(db, me, req, clock) == AuthError <==>
      exists k <- db.sims :: Matches(req, k, db.sims[k]) && Blocks(db, me, clock, k)
  {
    var db1 := Prepared(db, me, req, clock);
    var rows := Existing(db1, req);
    ExistingShape(db, me, req, clock);
    forall k <- db.sims | k.0 != me
      ensures k in rows <==> Matches(req, k, db.sims[k])
      ensures Blocks(db, me, clock, k) == Blocks(db1, me, clock, k)
    {
    }
    if k :| k in db.sims && Matches(req, k, db.sims[k]) && Blocks(db, me, clock, k) {
      assert k in rows && Blocks(db1, me, clock, k);
    }
  }

  // ---------- The same in the columns of the tables ----------

  /** A row shares its local id, its ICCID or its IMSI with a request. */
  ghost predicate Shares(req: Request, id: nat, card: Card) {
    || id in req
    || (exists i <- req :: card.iccid.Some? && req[i].iccid == card.iccid)
    || (exists i <- req :: card.imsi.Some? && req[i].imsi == card.imsi)
  }

  lemma SharesIff(req: Request, k: SimKey, s: Sim)
    ensures Matches(req, k, s) <==> Shares(req, k.1, s.card)
  {
  }

  /** Another provider is deleted with its rows iff a life time is configured, its
      last activity is known and lies further back, and one of its rows shares
      something with the request. */
  lemma ProviderStaysIff(db: Db, me: ProviderId, req: Request, clock: Clock, p: ProviderId)
    requires Consistent(db) && RegisterOf(db, me, req, clock).Registered? && p != me && p in db.providers
    ensures var last := db.providers[p].lastActive;
      var db' := RegisterOf(db, me, req, clock).db;
      var shares := exists k <- db.sims :: k.0 == p && Shares(req, k.1, db.sims[k].card);
      && (p in db'.providers <==>
           clock.ttl.None? || last.None? || last.value + clock.ttl.value >= clock.now || !shares)
      && (p in db'.providers ==> db'.providers[p] == db.providers[p])
      && (p !in db'.providers ==> forall k <- db'.sims :: k.0 != p)
  {
    hide RegisterOf, Matches, Shares, Collide;
    ProvidersAfter(db, me, req, clock);
    forall k <- db.sims ensures Matches(req, k, db.sims[k]) <==> Shares(req, k.1, db.sims[k].card) {
      SharesIff(req, k, db.sims[k]);
    }
    forall k | k in RegisterOf(db, me, req, clock).db.sims && k.0 == p ensures p in RegisterOf(db, me, req, clock).db.providers {
      RowAfter(db, me, req, clock, k);
    }
  }

  /** The registering provider itself: a new one is active from now on and allows
      re-registration, a known one stays as it is. */
  lemma OwnProvider(db: Db, me: ProviderId, req: Request, clock: Clock)
    requires Consistent(db) && RegisterOf(db, me, req, clock).Registered?
    ensures var ps := RegisterOf(db, me, req, clock).db.providers;
      me in ps && ps[me] == if me in db.providers then db.providers[me] else Provider(Some(clock.now), true)
  {
    hide IsExpired, Matches, Collide, Kept, DeletedRows, WithoutOwners, NewRows, PreparedIsModified;
  }

  /** A row that the registration has put in is free; a row that it has kept, of
      whatever provider, is the old one. */
  lemma RowsAreNewOrOld(db: Db, me: ProviderId, req: Request, clock: Clock, k: SimKey)
    requires Consistent(db) && RegisterOf(db, me, req, clock).Registered?
    requires k in RegisterOf(db, me, req, clock).db.sims
    ensures var s := RegisterOf(db, me, req, clock).db.sims[k];
      || (k in db.sims && s == db.sims[k])
      || (k.0 == me && k.1 in req && s.card == req[k.1] && !s.inUse)
  {
    hide RegisterOf;
    RowAfter(db, me, req, clock, k);
  }

  /** A registration is refused iff another provider that is not expired and does
      not allow re-registration has a row that shares something with it. */
  lemma AuthErrorIff(db: Db, me: ProviderId, req: Request, clock: Clock)
    requires Consistent(db)
    ensures RegisterOf(db, me, req, clock) == AuthError <==>
      exists k <- db.sims ::
        && k.0 != me && Shares(req, k.1, db.sims[k].card) && !db.providers[k.0].allowReregistration
        && var last := db.providers[k.0].lastActive;
           clock.ttl.None? || last.None? || last.value + clock.ttl.value >= clock.now
  {
    hide RegisterOf, Matches, Shares, Collide;
    RefusedIff(db, me, req, clock);
    forall k <- db.sims ensures Matches(req, k, db.sims[k]) <==> Shares(req, k.1, db.sims[k].card) {
      SharesIff(req, k, db.sims[k]);
    }
  }

  lemma SameCardsIff(db: Db, me: ProviderId, req: Request)
    ensures CardsOf(db, me) == req <==> RemovedRows(db, me, req) == {} && Kept(db, me, req) == req.Keys
  {
    hide CardsOf;
    forall i: nat
      ensures i in CardsOf(db, me) <==> (me, i) in db.sims
      ensures (me, i) in db.sims ==> CardsOf(db, me)[i] == db.sims[(me, i)].card
    {
      CardsAreRows(db, me, i);
    }
    if CardsOf(db, me) == req {
      forall k <- db.sims | k.0 == me ensures k.1 in req {
        assert k == (me, k.1);
      }
      assert Kept(db, me, req) == req.Keys;
    }
    if RemovedRows(db, me, req) == {} && Kept(db, me, req) == req.Keys {
      forall i <- CardsOf(db, me) ensures i in req {
        assert (me, i) !in RemovedRows(db, me, req);
      }
      forall i <- req ensures i in CardsOf(db, me) && CardsOf(db, me)[i] == req[i] {
        assert i in Kept(db, me, req);
      }
    }
  }

  /** The result says "modified" iff the provider is new or its cards changed. */
  lemma ModifiedIff(db: Db, me: ProviderId, req: Request, clock: Clock)
    requires Consistent(db) && RegisterOf(db, me, req, clock).Registered?
    ensures RegisterOf(db, me, req, clock).modified <==> me !in db.providers || CardsOf(db, me) != req
  {
    hide Matches, Collide, Blocks, CardsOf, DeletedRows, ExpiredOwners, WithoutOwners, NewRows;
    var kept := Kept(Prepared(db, me, req, clock), me, req);
    assert kept == Kept(db, me, req);
    assert kept <= req.Keys;
    if req.Keys - kept == {} {
      forall i <- req.Keys ensures i in kept {
        assert i !in req.Keys - kept;
      }
    }
    assert req.Keys - kept == {} <==> kept == req.Keys;
    SameCardsIff(db, me, req);
  }

  /** Registering the same cards again changes nothing and says so. */
  lemma RegisterAgain(db: Db, me: ProviderId, req: Request, clock: Clock, later: Clock)
    requires Consistent(db) && NoDuplicates(req) && RegisterOf(db, me, req, clock).Registered?
    ensures Consistent(RegisterOf(db, me, req, clock).db)
    ensures var db' := RegisterOf(db, me, req, clock).db;
      RegisterOf(db', me, req, later) == Registered(db', false)
  {
    var db' := RegisterOf(db, me, req, clock).db;
    ConsistencyKept(db, me, req, clock);
    ProvidersAfter(db, me, req, clock);
    RowsEqualRequest(db, me, req, clock);
    forall k <- db'.sims | k.0 != me ensures !Matches(req, k, db'.sims[k]) {
      RowAfter(db, me, req, clock, k);
    }
    NothingToDo(db', me, req, later);
  }

  lemma NothingToDo(db: Db, me: ProviderId, req: Request, clock: Clock)
    requires Consistent(db) && me in db.providers && CardsOf(db, me) == req
    requires forall k <- db.sims :: k.0 != me ==> !Matches(req, k, db.sims[k])
    ensures RegisterOf(db, me, req, clock) == Registered(db, false)
  {
    hide RegisterOf, Matches, Collide, CardsOf;
    RefusedIff(db, me, req, clock);
    ModifiedIff(db, me, req, clock);
    ProvidersAfter(db, me, req, clock);
    var db' := RegisterOf(db, me, req, clock).db;
    forall k ensures k in db'.sims <==> k in db.sims
             ensures k in db.sims ==> db'.sims[k] == db.sims[k]
    {
      RowAfter(db, me, req, clock, k);
      if k.0 == me {
        CardsAreRows(db, me, k.1);
      }
    }
    assert db'.sims == db.sims;
    assert db'.providers == db.providers;
  }
}
