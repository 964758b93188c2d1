/** The life cycle of management tokens: token_routes.py, the token-related
    parts of wireguard_routes.py and probe_routes.py, and the uniqueness
    constraints of models.py. */
module TokenLifecycle {
  import opened Bytes

  type TokenId = nat
  datatype Scope = Scope(wireguard: bool, probe: bool)
  datatype Token = Token(value: Option<string>, candidate: Option<string>, scope: Scope, mac: Option<string>)
  datatype WgConfig = WgConfig(ip: string, allowRegistration: bool, publicKey: Option<string>)

  /** The three tables. Configurations and probes have a unique token id, so they
      are keyed by it; a probe is its name here. `nextId` is the id sequence. */
  datatype Db = Db(
    tokens: map<TokenId, Token>, configs: map<TokenId, WgConfig>, probes: map<TokenId, string>, nextId: TokenId)

  // ---------- Constraints of the tables ----------

  predicate UniqueTokens(tokens: map<TokenId, Token>) {
    forall t <- tokens, u <- tokens :: t != u ==>
      && (tokens[t].value.Some? ==> tokens[t].value != tokens[u].value)
      && (tokens[t].candidate.Some? ==> tokens[t].candidate != tokens[u].candidate)
  }

  predicate UniqueAddresses(configs: map<TokenId, WgConfig>) {
    forall t <- configs, u <- configs :: t != u ==> configs[t].ip != configs[u].ip
  }

  predicate UniqueNames(probes: map<TokenId, string>) {
    forall t <- probes, u <- probes :: t != u ==> probes[t] != probes[u]
  }

  predicate UniqueColumns(db: Db) {
    UniqueTokens(db.tokens) && UniqueAddresses(db.configs) && UniqueNames(db.probes)
  }

  // ---------- Requests ----------

  datatype Activation = Activation(candidate: string, ip: Option<string>, name: Option<string>) {
    /** The request carries an address iff it is for Wireguard and a name iff it
        is for a probe, and at least one of them. */
    predicate Valid() {
      ip.Some? || name.Some?
    }

    function RequestedScope(): Scope {
      Scope(ip.Some?, name.Some?)
    }
  }

  /** External failures: the Wireguard daemon may refuse a peer. */
  datatype Action =
    | Register(candidate: string, scope: Scope, mac: string)
    | Activate(activation: Activation)
    | Deactivate(value: string, daemonFails: bool)
    | Revoke(bearer: string, daemonFails: bool)
    | RegisterWireguard(bearer: string, publicKey: string, mac: string, daemonFails: bool)
    | RenameProbe(token: TokenId, name: string)

  datatype Result = Done | Created | Forbidden | BadRequest | NotFound | Failed | TokenDropped

  // ---------- The transactions as functions ----------

  predicate Covers(scope: Scope, needed: Scope) {
    (needed.wireguard ==> scope.wireguard) && (needed.probe ==> scope.probe)
  }

  ghost predicate IsCandidate(db: Db, t: TokenId, c: string) {
    t in db.tokens && db.tokens[t].candidate == Some(c)
  }

  ghost predicate IsBearer(db: Db, t: TokenId, v: string) {
    t in db.tokens && db.tokens[t].value == Some(v)
  }

  function WithNewToken(db: Db, c: string, scope: Scope, mac: Option<string>): Db {
    db.(tokens := db.tokens[db.nextId := Token(None, Some(c), scope, mac)], nextId := db.nextId + 1)
  }

  /** A commit that violates a constraint raises and is rolled back. */
  function Commit(before: Db, after: Db, ok: Result): (Db, Result) {
    if UniqueColumns(after) then (after, ok) else (before, Failed)
  }

  function RegisterOf(db: Db, c: string, scope: Scope, mac: string): (Db, Result) {
    Commit(db, WithNewToken(db, c, scope, Some(mac)), Created)
  }

  /** What a token and its rows become when it is activated. */
  function Activated(db: Db, t: TokenId, a: Activation): Db
    requires t in db.tokens
  {
    var tok := db.tokens[t];
    db.(tokens := db.tokens[t := if tok.candidate.Some? then tok.(value := tok.candidate) else tok],
        configs :=
          if a.ip.None? then db.configs
          else if t in db.configs then db.configs[t := db.configs[t].(ip := a.ip.value, allowRegistration := true)]
          else db.configs[t := WgConfig(a.ip.value, true, None)],
        probes := if a.name.None? then db.probes else db.probes[t := a.name.value])
  }

  /** Activation of token `t`; a second probe row for a token is refused. */
  function ActivateToken(before: Db, db: Db, t: TokenId, a: Activation, ok: Result): (Db, Result)
    requires t in db.tokens
  {
    if db.tokens[t].scope != a.RequestedScope() then (before, BadRequest)
    else if a.name.Some? && t in db.probes then (before, Failed)
    else Commit(before, Activated(db, t, a), ok)
  }

  ghost function ActivateOf(db: Db, a: Activation): (Db, Result) {
    if exists t :: IsCandidate(db, t, a.candidate) then
      var t :| IsCandidate(db, t, a.candidate);
      ActivateToken(db, db, t, a, Done)
    else
      var db1 := WithNewToken(db, a.candidate, a.RequestedScope(), None);
      if !UniqueColumns(db1) then (db, BadRequest) else ActivateToken(db, db1, db.nextId, a, Created)
  }

  function Holders(db: Db, value: string): set<TokenId> {
    set t <- db.tokens | db.tokens[t].value == Some(value) || db.tokens[t].candidate == Some(value)
  }

  /** Deleting a token cascades to its configuration and its probe. */
  function Deleted(db: Db, ts: set<TokenId>): Db {
    db.(tokens := db.tokens - ts, configs := db.configs - ts, probes := db.probes - ts)
  }

  /** The daemon is asked to remove the peers of deleted Wireguard tokens. */
  predicate HasPeer(db: Db, t: TokenId) {
    t in db.tokens && db.tokens[t].scope.wireguard && t in db.configs && db.configs[t].publicKey.Some?
  }

  function DeleteOf(db: Db, value: string, daemonFails: bool): (Db, Result) {
    if daemonFails && exists t <- Holders(db, value) :: HasPeer(db, t) then (db, Failed)
    else (Deleted(db, Holders(db, value)), Done)
  }

  ghost function RevokeOf(db: Db, bearer: string, daemonFails: bool): (Db, Result) {
    if exists t :: IsBearer(db, t, bearer) then DeleteOf(db, bearer, daemonFails) else (db, Forbidden)
  }

  function PeerAdded(db: Db, t: TokenId, publicKey: string, mac: string): Db
    requires t in db.tokens && t in db.configs
  {
    var tok := db.tokens[t];
    db.(configs := db.configs[t := db.configs[t].(publicKey := Some(publicKey), allowRegistration := false)],
        tokens := db.tokens[t := if tok.mac.None? then tok.(mac := Some(mac)) else tok])
  }

  function RegisterPeer(db: Db, t: TokenId, publicKey: string, mac: string, daemonFails: bool): (Db, Result)
    requires t in db.tokens
  {
    if !db.tokens[t].scope.wireguard then (db, Forbidden)
    else if t !in db.configs then (Deleted(db, {t}), TokenDropped)  // "should not happen"
    else if !db.configs[t].allowRegistration then (db, Forbidden)
    else if daemonFails then (db, Failed)
    else Commit(db, PeerAdded(db, t, publicKey, mac), Done)
  }

  ghost function RegisterWireguardOf(db: Db, bearer: string, publicKey: string, mac: string, daemonFails: bool): (Db, Result) {
    if exists t :: IsBearer(db, t, bearer) then
      var t :| IsBearer(db, t, bearer);
      RegisterPeer(db, t, publicKey, mac, daemonFails)
    else (db, Forbidden)
  }

  function RenameOf(db: Db, t: TokenId, name: string): (Db, Result) {
    if t !in db.probes then (db, NotFound) else Commit(db, db.(probes := db.probes[t := name]), Done)
  }

  ghost function StepOf(db: Db, action: Action): (Db, Result) {
    match action
    case Register(c, scope, mac) => RegisterOf(db, c, scope, mac)
    case Activate(a) => ActivateOf(db, a)
    case Deactivate(v, f) => DeleteOf(db, v, f)
    case Revoke(b, f) => RevokeOf(db, b, f)
    case RegisterWireguard(b, key, mac, f) => RegisterWireguardOf(db, b, key, mac, f)
    case RenameProbe(t, name) => RenameOf(db, t, name)
  }

  // ---------- The invariant ----------

  /** A token is either a candidate only, or active with its candidate's value;
      it has a configuration iff it is active with Wireguard scope and a probe iff
      it is active with probe scope; the constraints of the tables hold. */
  ghost predicate Invariant(db: Db) {
    && UniqueColumns(db)
    && (forall t <- db.tokens :: t < db.nextId && db.tokens[t].candidate.Some?)
    && (forall t <- db.tokens :: db.tokens[t].value.Some? ==> db.tokens[t].value == db.tokens[t].candidate)
    && (forall t :: t in db.configs <==> t in db.tokens && db.tokens[t].value.Some? && db.tokens[t].scope.wireguard)
    && (forall t :: t in db.probes <==> t in db.tokens && db.tokens[t].value.Some? && db.tokens[t].scope.probe)
  }

  lemma OneCandidate(db: Db, t: TokenId, u: TokenId, c: string)
    requires UniqueColumns(db) && IsCandidate(db, t, c) && IsCandidate(db, u, c)
    ensures t == u
  {
    if t != u {
      CandidateClash(db.tokens, t, u);
    }
  }

  /** A candidate can be added iff no token has it already. */
  lemma NewTokenUniqueIff(db: Db, c: string, scope: Scope, mac: Option<string>)
    requires Invariant(db)
    ensures UniqueColumns(WithNewToken(db, c, scope, mac)) <==> forall t :: !IsCandidate(db, t, c)
  {
    var tokens := WithNewToken(db, c, scope, mac).tokens;
    assert db.nextId !in db.tokens;
    if UniqueTokens(tokens) {
      forall t ensures !IsCandidate(db, t, c) {
        if IsCandidate(db, t, c) {
          CandidateClash(tokens, t, db.nextId);
        }
      }
    }
    if forall t :: !IsCandidate(db, t, c) {
      forall t <- db.tokens ensures db.tokens[t].candidate != Some(c) {
        assert !IsCandidate(db, t, c);
      }
      assert UniqueTokens(tokens);
    }
  }

  lemma NewTokenKeeps(db: Db, c: string, scope: Scope, mac: Option<string>)
    requires Invariant(db) && UniqueColumns(WithNewToken(db, c, scope, mac))
    ensures Invariant(WithNewToken(db, c, scope, mac))
  {
    hide UniqueColumns;
    var db' := WithNewToken(db, c, scope, mac);
    assert forall t :: t in db.tokens ==> t != db.nextId && db'.tokens[t] == db.tokens[t];
  }

  lemma CandidateClash(tokens: map<TokenId, Token>, t: TokenId, u: TokenId)
    requires t in tokens && u in tokens && t != u
    requires tokens[t].candidate.Some? && tokens[t].candidate == tokens[u].candidate
    ensures !UniqueTokens(tokens)
  {
  }

  /** Only a foreign row with the same address or name keeps an activation from
      being committed. */
  lemma ActivatedUniqueIff(db: Db, t: TokenId, a: Activation)
    requires Invariant(db) && t in db.tokens
    ensures UniqueTokens(Activated(db, t, a).tokens)
    ensures UniqueAddresses(Activated(db, t, a).configs)
       <==> (a.ip.Some? ==> forall u <- db.configs :: u != t ==> db.configs[u].ip != a.ip.value)
    ensures UniqueNames(Activated(db, t, a).probes)
       <==> (a.name.Some? ==> forall u <- db.probes :: u != t ==> db.probes[u] != a.name.value)
  {
    var db' := Activated(db, t, a);
    if a.ip.Some? {
      AddressUniqueIff(db.configs, db'.configs, t, a.ip.value);
    }
    if a.name.Some? {
      NameUniqueIff(db.probes, t, a.name.value);
    }
  }

  lemma AddressUniqueIff(configs: map<TokenId, WgConfig>, after: map<TokenId, WgConfig>, t: TokenId, ip: string)
    requires UniqueAddresses(configs) && t in after && after[t].ip == ip && after == configs[t := after[t]]
    ensures UniqueAddresses(after) <==> forall u <- configs :: u != t ==> configs[u].ip != ip
  {
    forall u <- configs | u != t ensures u in after && after[u] == configs[u] {
    }
  }

  lemma NameUniqueIff(probes: map<TokenId, string>, t: TokenId, name: string)
    requires UniqueNames(probes)
    ensures UniqueNames(probes[t := name]) <==> forall u <- probes :: u != t ==> probes[u] != name
  {
    var after := probes[t := name];
    if UniqueNames(after) {
      forall u <- probes | u != t ensures probes[u] != name {
        assert after[u] == probes[u] && after[t] == name;
      }
    }
    if forall u <- probes :: u != t ==> probes[u] != name {
      forall x <- after, y <- after | x != y ensures after[x] != after[y] {
      }
    }
  }

  lemma ActivationKeeps(before: Db, db: Db, t: TokenId, a: Activation, ok: Result)
    requires Invariant(before) && Invariant(db) && t in db.tokens
    ensures Invariant(ActivateToken(before, db, t, a, ok).0)
  {
    hide UniqueColumns;
    if db.tokens[t].scope == a.RequestedScope() && UniqueColumns(Activated(db, t, a)) {
      ActivatedInvariant(db, t, a);
    }
  }

  lemma ActivatedInvariant(db: Db, t: TokenId, a: Activation)
    requires Invariant(db) && t in db.tokens && db.tokens[t].scope == a.RequestedScope()
    requires UniqueColumns(Activated(db, t, a))
    ensures Invariant(Activated(db, t, a))
  {
    hide UniqueColumns;
    var db' := Activated(db, t, a);
    assert forall u :: u != t && u in db.tokens ==> db'.tokens[u] == db.tokens[u];
    assert db'.tokens[t].value == db'.tokens[t].candidate == db.tokens[t].candidate;
  }

  lemma DeletionKeeps(db: Db, ts: set<TokenId>)
    requires Invariant(db)
    ensures Invariant(Deleted(db, ts))
  {
  }

  lemma PeerKeeps(db: Db, t: TokenId, publicKey: string, mac: string, daemonFails: bool)
    requires Invariant(db) && t in db.tokens && db.tokens[t].value.Some?
    ensures Invariant(RegisterPeer(db, t, publicKey, mac, daemonFails).0)
  {
    hide UniqueColumns, PeerAdded, Invariant, Deleted;
    if db.tokens[t].scope.wireguard && t in db.configs && UniqueColumns(PeerAdded(db, t, publicKey, mac)) {
      PeerAddedInvariant(db, t, publicKey, mac);
    } else {
      DeletionKeeps(db, {t});
    }
  }

  lemma PeerAddedInvariant(db: Db, t: TokenId, publicKey: string, mac: string)
    requires Invariant(db) && t in db.configs && t in db.tokens && UniqueColumns(PeerAdded(db, t, publicKey, mac))
    ensures Invariant(PeerAdded(db, t, publicKey, mac))
  {
    hide UniqueColumns;
    var db' := PeerAdded(db, t, publicKey, mac);
    assert forall u :: u != t && u in db.tokens ==> db'.tokens[u] == db.tokens[u];
  }

  lemma ActivateKeepsInvariant(db: Db, a: Activation)
    requires Invariant(db) && a.Valid()
    ensures Invariant(ActivateOf(db, a).0)
  {
    hide UniqueColumns, ActivateToken;
    if exists t :: IsCandidate(db, t, a.candidate) {
      forall t | IsCandidate(db, t, a.candidate) ensures Invariant(ActivateToken(db, db, t, a, Done).0) {
        ActivationKeeps(db, db, t, a, Done);
      }
    } else {
      var db1 := WithNewToken(db, a.candidate, a.RequestedScope(), None);
      if UniqueColumns(db1) {
        NewTokenKeeps(db, a.candidate, a.RequestedScope(), None);
        ActivationKeeps(db, db1, db.nextId, a, Created);
      }
    }
  }

  lemma RenameKeepsInvariant(db: Db, t: TokenId, name: string)
    requires Invariant(db)
    ensures Invariant(RenameOf(db, t, name).0)
  {
    hide UniqueColumns;
  }

  lemma StepKeepsInvariant(db: Db, action: Action)
    requires Invariant(db) && (action.Activate? ==> action.activation.Valid())
    ensures Invariant(StepOf(db, action).0)
  {
    match action
    case Register(c, scope, mac) =>
      if UniqueColumns(WithNewToken(db, c, scope, Some(mac))) {
        NewTokenKeeps(db, c, scope, Some(mac));
      }
    case Activate(a) => ActivateKeepsInvariant(db, a);
    case Deactivate(v, _) => DeletionKeeps(db, Holders(db, v));
    case Revoke(b, _) => DeletionKeeps(db, Holders(db, b));
    case RegisterWireguard(b, key, mac, f) =>
      forall t | IsBearer(db, t, b) ensures Invariant(RegisterPeer(db, t, key, mac, f).0) {
        PeerKeeps(db, t, key, mac, f);
      }
    case RenameProbe(t, name) => RenameKeepsInvariant(db, t, name);
  }

  // ---------- Theorems over all runs ----------

  ghost function Run(db: Db, actions: seq<Action>): Db
    decreases |actions|
  {
    if actions == [] then db else Run(StepOf(db, actions[0]).0, actions[1..])
  }

  const EMPTY_DB := Db(map[], map[], map[], 0)

  ghost predicate AllValid(actions: seq<Action>) {
    forall i :: 0 <= i < |actions| && actions[i].Activate? ==> actions[i].activation.Valid()
  }

  lemma {:induction false} RunKeepsInvariant(db: Db, actions: seq<Action>)
    requires Invariant(db) && AllValid(actions)
    ensures Invariant(Run(db, actions))
    decreases |actions|
  {
    if actions != [] {
      StepKeepsInvariant(db, actions[0]);
      RunKeepsInvariant(StepOf(db, actions[0]).0, actions[1..]);
    }
  }

  /** In every reachable state the bearer of a token with Wireguard scope has a
      configuration, so the branch that drops the token is never taken. */
  lemma TokenIsNeverDropped(actions: seq<Action>, next: Action)
    requires AllValid(actions)
    ensures StepOf(Run(EMPTY_DB, actions), next).1 != TokenDropped
  {
    RunKeepsInvariant(EMPTY_DB, actions);
    hide UniqueColumns, Activated;
  }

  /** In every reachable state the poll route finds the probe of its bearer, and
      only one token can be the bearer. */
  lemma PollFindsProbe(actions: seq<Action>, t: TokenId, bearer: string)
    requires AllValid(actions)
    requires IsBearer(Run(EMPTY_DB, actions), t, bearer) && Run(EMPTY_DB, actions).tokens[t].scope.probe
    ensures var db := Run(EMPTY_DB, actions);
      t in db.probes && forall u :: IsBearer(db, u, bearer) ==> u == t
  {
    RunKeepsInvariant(EMPTY_DB, actions);
  }

  /** Exactly when an activation goes through: the candidate, if known, has the
      requested scope and no probe yet, the name is free, and so is the address
      unless it already belongs to the token. */
  lemma ActivationSucceedsIff(db: Db, a: Activation)
    requires Invariant(db) && a.Valid()
    ensures ActivateOf(db, a).1 in {Done, Created} <==>
      && (forall t :: IsCandidate(db, t, a.candidate) ==>
            db.tokens[t].scope == a.RequestedScope() && (a.name.Some? ==> db.tokens[t].value.None?))
      && (a.name.Some? ==> forall u <- db.probes :: db.probes[u] != a.name.value)
      && (a.ip.Some? ==> forall u <- db.configs ::
            db.configs[u].ip == a.ip.value ==> IsCandidate(db, u, a.candidate))
  {
    hide UniqueColumns, ActivateToken;
    if exists t :: IsCandidate(db, t, a.candidate) {
      var t :| IsCandidate(db, t, a.candidate);
      forall u | IsCandidate(db, u, a.candidate) ensures u == t {
        OneCandidate(db, t, u, a.candidate);
      }
      CommitSucceedsIff(db, db, t, a, Done);
    } else {
      var db1 := WithNewToken(db, a.candidate, a.RequestedScope(), None);
      NewTokenUniqueIff(db, a.candidate, a.RequestedScope(), None);
      NewTokenKeeps(db, a.candidate, a.RequestedScope(), None);
      CommitSucceedsIff(db, db1, db.nextId, a, Created);
    }
  }

  lemma CommitSucceedsIff(before: Db, db: Db, t: TokenId, a: Activation, ok: Result)
    requires Invariant(db) && t in db.tokens && ok in {Done, Created}
    ensures ActivateToken(before, db, t, a, ok).1 in {ok, BadRequest, Failed}
    ensures ActivateToken(before, db, t, a, ok).1 == ok <==>
      && db.tokens[t].scope == a.RequestedScope() && (a.name.Some? ==> t !in db.probes)
      && (a.name.Some? ==> forall u <- db.probes :: db.probes[u] != a.name.value)
      && (a.ip.Some? ==> forall u <- db.configs :: db.configs[u].ip == a.ip.value ==> u == t)
  {
    hide Activated, UniqueTokens, UniqueAddresses, UniqueNames, Invariant;
    ActivatedUniqueIff(db, t, a);
  }

  /** An activation touches no other token: their rows stay as they are. */
  lemma OthersUntouched(db: Db, a: Activation, u: TokenId)
    requires Invariant(db) && u in db.tokens && !IsCandidate(db, u, a.candidate)
    ensures SameRows(db, ActivateOf(db, a).0, u)
  {
    hide UniqueColumns;
  }

  ghost predicate SameRows(db: Db, db': Db, u: TokenId) {
    && (u in db'.tokens <==> u in db.tokens) && (u in db.tokens ==> db'.tokens[u] == db.tokens[u])
    && (u in db'.configs <==> u in db.configs) && (u in db.configs ==> db'.configs[u] == db.configs[u])
    && (u in db'.probes <==> u in db.probes) && (u in db.probes ==> db'.probes[u] == db.probes[u])
  }

  /** Deactivation undoes registration and activation: no row of the token is
      left, and its value can be registered anew. */
  lemma DeactivationClears(db: Db, value: string)
    requires Invariant(db)
    ensures var db' := DeleteOf(db, value, false).0;
      && (forall t :: !IsCandidate(db', t, value) && !IsBearer(db', t, value))
      && (forall t <- Holders(db, value) :: t !in db'.tokens && t !in db'.configs && t !in db'.probes)
      && (forall scope, mac :: RegisterOf(db', value, scope, mac).1 == Created)
  {
    var db' := DeleteOf(db, value, false).0;
    DeletionKeeps(db, Holders(db, value));
    forall scope: Scope, mac: string ensures RegisterOf(db', value, scope, mac).1 == Created {
      NewTokenUniqueIff(db', value, scope, Some(mac));
    }
  }

  // ---------- What the operations leave in the tables ----------

  /** A new candidate is not active, has the scope and the address it came with,
      and is refused iff a token has that candidate; nothing else changes. */
  lemma RegistrationEffect(db: Db, c: string, scope: Scope, mac: string)
    requires Invariant(db)
    ensures var (db', r) := RegisterOf(db, c, scope, mac);
      if exists t :: IsCandidate(db, t, c) then r == Failed && db' == db
      else
        && r == Created && db.nextId !in db.tokens
        && db'.tokens == db.tokens[db.nextId := Token(None, Some(c), scope, Some(mac))]
        && db'.configs == db.configs && db'.probes == db.probes
  {
    NewTokenUniqueIff(db, c, scope, Some(mac));
  }

  /** After an activation that went through, the token is active with its candidate
      as its value, may register one key for the address given, and has the probe
      name given. */
  lemma ActivationEffect(db: Db, a: Activation)
    requires Invariant(db) && a.Valid() && ActivateOf(db, a).1 in {Done, Created}
    ensures var db' := ActivateOf(db, a).0;
      exists t ::
        && IsCandidate(db', t, a.candidate) && IsBearer(db', t, a.candidate)
        && db'.tokens[t].scope == Scope(a.ip.Some?, a.name.Some?)
        && (a.ip.Some? ==> t in db'.configs && db'.configs[t].ip == a.ip.value && db'.configs[t].allowRegistration)
        && (a.name.Some? ==> t in db'.probes && db'.probes[t] == a.name.value)
        && (a.ip.Some? && t in db.configs ==> db'.configs[t].publicKey == db.configs[t].publicKey)
  {
    hide UniqueColumns;
    if exists t :: IsCandidate(db, t, a.candidate) {
      var t :| IsCandidate(db, t, a.candidate);
      forall u | IsCandidate(db, u, a.candidate) ensures u == t {
        OneCandidate(db, u, t, a.candidate);
      }
      assert ActivateOf(db, a) == ActivateToken(db, db, t, a, Done);
      assert IsBearer(ActivateOf(db, a).0, t, a.candidate);
    } else {
      assert IsBearer(ActivateOf(db, a).0, db.nextId, a.candidate);
    }
  }

  /** An activation that does not go through leaves the tables alone; a new token
      comes about exactly where no token had the candidate. */
  lemma ActivationResult(db: Db, a: Activation)
    requires Invariant(db) && a.Valid()
    ensures var (db', r) := ActivateOf(db, a);
      && r in {Done, Created, BadRequest, Failed}
      && (r !in {Done, Created} ==> db' == db)
      && (r == Done ==> exists t :: IsCandidate(db, t, a.candidate))
      && (r == Created ==> forall t :: !IsCandidate(db, t, a.candidate))
  {
    hide UniqueColumns, Activated;
  }

  /** A probe is renamed iff it exists and no other probe has the name. */
  lemma RenameEffect(db: Db, t: TokenId, name: string)
    requires Invariant(db)
    ensures var (db', r) := RenameOf(db, t, name);
      && (r == NotFound <==> t !in db.probes)
      && (r == Done <==> t in db.probes && forall u <- db.probes :: u != t ==> db.probes[u] != name)
      && (r == Done ==> db' == db.(probes := db.probes[t := name]))
      && (r != Done ==> db' == db && (r == NotFound || r == Failed))
  {
    if t in db.probes {
      NameUniqueIff(db.probes, t, name);
    }
  }

  /** Deactivation takes exactly the tokens with that value, with their rows, unless
      the daemon refuses to remove a peer; then nothing changes. */
  lemma DeactivationEffect(db: Db, value: string, daemonFails: bool, t: TokenId)
    requires Invariant(db)
    ensures var (db', r) := DeleteOf(db, value, daemonFails);
      && (r == Failed <==> daemonFails && exists u ::
            && u in db.tokens && db.tokens[u].candidate == Some(value) && db.tokens[u].scope.wireguard
            && u in db.configs && db.configs[u].publicKey.Some?)
      && (r == Failed ==> db' == db) && (r != Failed ==> r == Done)
      && (r == Done ==>
           && (t in db'.tokens <==> t in db.tokens && db.tokens[t].candidate != Some(value))
           && (t in db'.tokens ==> SameRows(db, db', t)))
  {
    hide UniqueColumns;
    if u :| u in db.tokens && db.tokens[u].candidate == Some(value) && HasPeer(db, u) {
      assert u in Holders(db, value);
    }
  }

  /** Only the value of an active token revokes, and then as by deactivation; a
      candidate that is not active is refused. */
  lemma RevocationEffect(db: Db, bearer: string, daemonFails: bool)
    requires Invariant(db)
    ensures var (db', r) := RevokeOf(db, bearer, daemonFails);
      && (r == Forbidden <==> forall t <- db.tokens :: db.tokens[t].value != Some(bearer))
      && (r == Forbidden ==> db' == db)
      && (r != Forbidden ==> (db', r) == DeleteOf(db, bearer, daemonFails))
  {
    hide UniqueColumns;
    if t :| t in db.tokens && db.tokens[t].value == Some(bearer) {
      assert IsBearer(db, t, bearer);
    }
  }

  /** A key is registered iff the bearer has Wireguard scope, its configuration is
      open and the daemon agrees. It is stored, the configuration is closed, and the
      address of the device is kept if none was known; otherwise nothing changes. */
  lemma KeyRegisteredIff(db: Db, bearer: string, publicKey: string, mac: string, daemonFails: bool, t: TokenId)
    requires Invariant(db) && IsBearer(db, t, bearer)
    ensures var (db', r) := RegisterWireguardOf(db, bearer, publicKey, mac, daemonFails);
      && (r == Done <==> db.tokens[t].scope.wireguard && t in db.configs && db.configs[t].allowRegistration && !daemonFails)
      && (r == Done ==>
           && db'.configs == db.configs[t := WgConfig(db.configs[t].ip, false, Some(publicKey))]
           && (var device := if db.tokens[t].mac.None? then Some(mac) else db.tokens[t].mac;
               db'.tokens == db.tokens[t := db.tokens[t].(mac := device)])
           && db'.probes == db.probes)
      && (r != Done ==> db' == db && r == if daemonFails && db.tokens[t].scope.wireguard && db.configs[t].allowRegistration
                                          then Failed else Forbidden)
  {
    forall u | IsBearer(db, u, bearer) ensures u == t {
      OneBearer(db, u, t, bearer);
    }
    assert RegisterWireguardOf(db, bearer, publicKey, mac, daemonFails) == RegisterPeer(db, t, publicKey, mac, daemonFails);
    if t in db.configs {
      PeerIsUnique(db, t, publicKey, mac);
    }
    hide UniqueColumns;
  }

  lemma OneBearer(db: Db, t: TokenId, u: TokenId, v: string)
    requires UniqueColumns(db) && IsBearer(db, t, v) && IsBearer(db, u, v)
    ensures t == u
  {
  }

  lemma PeerIsUnique(db: Db, t: TokenId, publicKey: string, mac: string)
    requires UniqueColumns(db) && t in db.tokens && t in db.configs
    ensures UniqueColumns(PeerAdded(db, t, publicKey, mac))
  {
    var db' := PeerAdded(db, t, publicKey, mac);
    assert forall u :: u in db.tokens ==>
      db'.tokens[u].value == db.tokens[u].value && db'.tokens[u].candidate == db.tokens[u].candidate;
    assert forall u :: u in db.configs ==> db'.configs[u].ip == db.configs[u].ip;
  }

  /** No token with this candidate may register a key. */
  ghost predicate Closed(db: Db, v: string) {
    forall t <- db.configs :: IsCandidate(db, t, v) ==> !db.configs[t].allowRegistration
  }

  lemma StepKeepsClosed(db: Db, action: Action, v: string)
    requires Invariant(db) && Closed(db, v)
    requires action.Activate? ==> action.activation.Valid() && action.activation.candidate != v
    ensures Closed(StepOf(db, action).0, v)
  {
    hide UniqueColumns;
    if action.Activate? {
      var a, db' := action.activation, StepOf(db, action).0;
      forall t | t in db'.configs && IsCandidate(db', t, v) ensures !db'.configs[t].allowRegistration {
        if t in db.tokens {
          OthersUntouched(db, a, t);
        }
      }
    }
  }

  lemma {:induction false} RunKeepsClosed(db: Db, actions: seq<Action>, v: string)
    requires Invariant(db) && Closed(db, v) && AllValid(actions)
    requires forall i :: 0 <= i < |actions| && actions[i].Activate? ==> actions[i].activation.candidate != v
    ensures Closed(Run(db, actions), v)
    decreases |actions|
  {
    hide Invariant, Closed;
    if actions != [] {
      StepKeepsInvariant(db, actions[0]);
      StepKeepsClosed(db, actions[0], v);
      RunKeepsClosed(StepOf(db, actions[0]).0, actions[1..], v);
    }
  }

  /** One key for each activation: once a bearer has registered a key, a further
      registration is forbidden, whatever happens in between, until the token is
      activated again. */
  lemma OneKeyPerActivation(
      db: Db, bearer: string, publicKey: string, mac: string, actions: seq<Action>,
      otherKey: string, otherMac: string, daemonFails: bool)
    requires Invariant(db) && RegisterWireguardOf(db, bearer, publicKey, mac, false).1 == Done && AllValid(actions)
    requires forall i :: 0 <= i < |actions| && actions[i].Activate? ==> actions[i].activation.candidate != bearer
    ensures var later := Run(RegisterWireguardOf(db, bearer, publicKey, mac, false).0, actions);
      RegisterWireguardOf(later, bearer, otherKey, otherMac, daemonFails) == (later, Forbidden)
  {
    hide Invariant, RegisterWireguardOf, Run, StepOf;
    KeyCloses(db, bearer, publicKey, mac);
    var db' := RegisterWireguardOf(db, bearer, publicKey, mac, false).0;
    RunKeepsInvariant(db', actions);
    RunKeepsClosed(db', actions, bearer);
    ClosedForbids(Run(db', actions), bearer, otherKey, otherMac, daemonFails);
  }

  lemma KeyCloses(db: Db, bearer: string, publicKey: string, mac: string)
    requires Invariant(db) && RegisterWireguardOf(db, bearer, publicKey, mac, false).1 == Done
    ensures var db' := RegisterWireguardOf(db, bearer, publicKey, mac, false).0; Invariant(db') && Closed(db', bearer)
  {
    hide RegisterPeer, RegisterWireguardOf, UniqueColumns;
    assert exists t :: IsBearer(db, t, bearer) by { OnlyBearersRegister(db, bearer, publicKey, mac); }
    var t :| IsBearer(db, t, bearer);
    var db' := RegisterWireguardOf(db, bearer, publicKey, mac, false).0;
    KeyRegisteredIff(db, bearer, publicKey, mac, false, t);
    StepKeepsInvariant(db, RegisterWireguard(bearer, publicKey, mac, false));
    assert IsCandidate(db', t, bearer);
    assert StepOf(db, RegisterWireguard(bearer, publicKey, mac, false)).0 == db';
    forall u | u in db'.configs && IsCandidate(db', u, bearer) ensures !db'.configs[u].allowRegistration {
      OneCandidate(db', u, t, bearer);
    }
  }

  lemma OnlyBearersRegister(db: Db, bearer: string, publicKey: string, mac: string)
    requires RegisterWireguardOf(db, bearer, publicKey, mac, false).1 == Done
    ensures exists t :: IsBearer(db, t, bearer)
  {
  }

  lemma ClosedForbids(db: Db, bearer: string, publicKey: string, mac: string, daemonFails: bool)
    requires Invariant(db) && Closed(db, bearer)
    ensures RegisterWireguardOf(db, bearer, publicKey, mac, daemonFails) == (db, Forbidden)
  {
    hide UniqueColumns, PeerAdded;
    forall t | IsBearer(db, t, bearer)
      ensures RegisterPeer(db, t, publicKey, mac, daemonFails) == (db, Forbidden)
    {
      assert IsCandidate(db, t, bearer);
    }
  }

  // ---------- The routes ----------

  class Server {
    var db: Db

    constructor ()
      ensures db == EMPTY_DB
    {
      db := EMPTY_DB;
    }

    /** `add_token_candidate`: the flush tells whether the candidate is new. */
    method AddTokenCandidate(c: string, scope: Scope, mac: Option<string>) returns (t: Option<TokenId>)
      modifies this
      ensures var db1 := WithNewToken(old(db), c, scope, mac);
        if UniqueColumns(db1) then t == Some(old(db).nextId) && db == db1 else t == None && db == old(db)
    {
      hide UniqueTokens, UniqueAddresses, UniqueNames;
      var saved := db;
      t := Some(db.nextId);
      db := db.(tokens := db.tokens[db.nextId := Token(None, Some(c), scope, mac)], nextId := db.nextId + 1);
      if !UniqueColumns(db) {
        db := saved;
        t := None;
      }
    }

    method TokenRegister(c: string, scope: Scope, mac: string) returns (r: Result)
      modifies this
      ensures (db, r) == RegisterOf(old(db), c, scope, mac)
    {
      hide UniqueColumns;
      var t := AddTokenCandidate(c, scope, Some(mac));
      r := if t.Some? then Created else Failed;
    }

    method FindByCandidate(c: string) returns (r: Option<TokenId>)
      ensures r.Some? ==> IsCandidate(db, r.value, c)
      ensures r.None? ==> forall t :: !IsCandidate(db, t, c)
    {
      var hits := set t <- db.tokens | db.tokens[t].candidate == Some(c);
      if hits == {} {
        r := None;
        forall t ensures !IsCandidate(db, t, c) {
          assert t !in hits;
        }
      } else {
        var t :| t in hits;
        r := Some(t);
      }
    }

    /** `token_activate` for an authenticated administrator. */
    method TokenActivate(a: Activation) returns (r: Result)
      requires UniqueColumns(db) && a.Valid()
      modifies this
      ensures (db, r) == ActivateOf(old(db), a)
    {
      hide UniqueAddresses, UniqueNames, ActivateToken;
      var saved := db;
      var found := FindByCandidate(a.candidate);
      var ok := Done;
      if found.None? {
        found := AddTokenCandidate(a.candidate, a.RequestedScope(), None);
        ok := Created;
        if found.None? {
          return BadRequest;
        }
      } else {
        forall u | IsCandidate(db, u, a.candidate) ensures u == found.value {
          OneCandidate(db, u, found.value, a.candidate);
        }
      }
      r := ActivateFound(found.value, a, saved, ok);
    }

    /** The part of `token_activate` after the token is at hand; an exception
        rolls back to `saved`. */
    method ActivateFound(t: TokenId, a: Activation, saved: Db, ok: Result) returns (r: Result)
      requires t in db.tokens
      modifies this
      ensures (db, r) == ActivateToken(saved, old(db), t, a, ok)
    {
      hide UniqueColumns;
      var token := db.tokens[t];
      if token.scope != a.RequestedScope() {
        db := saved;
        return BadRequest;
      }
      if token.candidate.Some? {
        token := token.(value := token.candidate);
      }
      db := db.(tokens := db.tokens[t := token]);
      if a.ip.Some? {
        var config := if t in db.configs then db.configs[t].(ip := a.ip.value, allowRegistration := true)
                      else WgConfig(a.ip.value, true, None);
        db := db.(configs := db.configs[t := config]);
      }
      var secondProbe := false;
      if a.name.Some? {
        secondProbe := t in db.probes;
        db := db.(probes := db.probes[t := a.name.value]);
      }
      assert db == Activated(old(db), t, a);
      if secondProbe || !UniqueColumns(db) {
        db := saved;
        return Failed;
      }
      return ok;
    }

    /** `delete_token`, for the routes `deactivate` and `revoke`. */
    method DeleteToken(value: string, daemonFails: bool) returns (r: Result)
      modifies this
      ensures (db, r) == DeleteOf(old(db), value, daemonFails)
    {
      var saved := db;
      var holders := set t <- db.tokens | db.tokens[t].value == Some(value) || db.tokens[t].candidate == Some(value);
      assert holders == Holders(saved, value);
      var todo := holders;
      while todo != {}
        invariant todo <= holders && db == Deleted(saved, holders - todo)
        invariant forall t <- holders - todo :: !(daemonFails && HasPeer(saved, t))
        decreases todo
      {
        var t :| t in todo;
        ghost var done := holders - todo;
        if db.tokens[t].scope.wireguard && t in db.configs && db.configs[t].publicKey.Some? && daemonFails {
          assert HasPeer(saved, t);
          db := saved;
          return Failed;
        }
        db := db.(tokens := db.tokens - {t}, configs := db.configs - {t}, probes := db.probes - {t});
        todo := todo - {t};
        assert holders - todo == done + {t};
      }
      assert holders - todo == holders;
      return Done;
    }

    /** `check_token`: the bearer, if its scope covers what the route needs. */
    method CheckToken(value: string, needed: Scope) returns (r: Option<TokenId>)
      ensures r.Some? ==> IsBearer(db, r.value, value) && Covers(db.tokens[r.value].scope, needed)
      ensures r.None? ==>
        (forall t :: !IsBearer(db, t, value)) || exists t :: IsBearer(db, t, value) && !Covers(db.tokens[t].scope, needed)
    {
      var hits := set t <- db.tokens | db.tokens[t].value == Some(value);
      if hits == {} {
        r := None;
        forall t ensures !IsBearer(db, t, value) {
          assert t !in hits;
        }
      } else {
        var t :| t in hits;
        assert IsBearer(db, t, value);
        r := if Covers(db.tokens[t].scope, needed) then Some(t) else None;
      }
    }

    method Revoke(bearer: string, daemonFails: bool) returns (r: Result)
      modifies this
      ensures (db, r) == RevokeOf(old(db), bearer, daemonFails)
    {
      var t := CheckToken(bearer, Scope(false, false));
      if t.None? {
        return Forbidden;
      }
      r := DeleteToken(bearer, daemonFails);
    }

    /** `wireguard_register` */
    method WireguardRegister(bearer: string, publicKey: string, mac: string, daemonFails: bool) returns (r: Result)
      requires UniqueColumns(db)
      modifies this
      ensures (db, r) == RegisterWireguardOf(old(db), bearer, publicKey, mac, daemonFails)
    {
      hide UniqueAddresses, UniqueNames;
      var found := CheckToken(bearer, Scope(true, false));
      assert forall t, u :: IsBearer(db, t, bearer) && IsBearer(db, u, bearer) ==> t == u;
      if found.None? {
        return Forbidden;
      }
      hide RegisterPeer;
      r := RegisterFound(found.value, publicKey, mac, daemonFails);
    }

    method RegisterFound(t: TokenId, publicKey: string, mac: string, daemonFails: bool) returns (r: Result)
      requires t in db.tokens && db.tokens[t].scope.wireguard
      modifies this
      ensures (db, r) == RegisterPeer(old(db), t, publicKey, mac, daemonFails)
    {
      hide UniqueColumns;
      var saved := db;
      if t !in db.configs {
        db := db.(tokens := db.tokens - {t}, configs := db.configs - {t}, probes := db.probes - {t});
        return TokenDropped;
      }
      var wg := db.configs[t];
      if !wg.allowRegistration {
        return Forbidden;
      }
      if daemonFails {
        return Failed;
      }
      db := db.(configs := db.configs[t := wg.(publicKey := Some(publicKey), allowRegistration := false)]);
      var token := db.tokens[t];
      if token.mac.None? {
        token := token.(mac := Some(mac));
      }
      db := db.(tokens := db.tokens[t := token]);
      if !UniqueColumns(db) {
        db := saved;
        return Failed;
      }
      return Done;
    }

    method ChangeProbeName(t: TokenId, name: string) returns (r: Result)
      modifies this
      ensures (db, r) == RenameOf(old(db), t, name)
    {
      hide UniqueColumns;
      if t !in db.probes {
        return NotFound;
      }
      var saved := db;
      db := db.(probes := db.probes[t := name]);
      if !UniqueColumns(db) {
        db := saved;
        return Failed;
      }
      return Done;
    }
  }
}
