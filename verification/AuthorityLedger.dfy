/** The enrollment authority: three row-locked transactions over the authority, credential and
    revocation tables, with the tables' unique constraints as the final arbiter. */
module AuthorityLedger {
  import opened Wire

  datatype Status = Active | Revoked

  datatype Row = Row(
    fingerprint: Bytes, identity: Bytes, tokenDigest: Bytes, tokenExpiresAt: int,
    tokenConsumed: bool, activeSerial: Option<Bytes>)

  datatype Credential = Credential(device: string, status: Status)

  /** The three tables. Devices, credential serials and revoked serials are primary keys. */
  datatype Ledger = Ledger(
    authority: map<string, Row>, credentials: map<Bytes, Credential>, revocations: map<Bytes, string>)

  datatype RepositoryError = Denied | Unavailable

  const TOKEN_SECONDS: int := 600

  datatype Request = Request(device: string, fingerprint: Bytes, identity: Bytes, recovery: bool)

  // ----- statements -----

  /** UPDATE device_route_credentials SET revoked WHERE device, serial and active match. */
  function MarkRevoked(credentials: map<Bytes, Credential>, device: string, serial: Bytes): map<Bytes, Credential> {
    if serial in credentials && credentials[serial] == Credential(device, Active)
    then credentials[serial := Credential(device, Revoked)]
    else credentials
  }

  /** The unique constraints on fingerprint and token digest, against every other device's row. */
  predicate UpsertConflicts(authority: map<string, Row>, device: string, fingerprint: Bytes, tokenDigest: Bytes) {
    exists other :: other in authority && other != device
      && (authority[other].fingerprint == fingerprint || authority[other].tokenDigest == tokenDigest)
  }

  predicate SerialTaken(authority: map<string, Row>, device: string, serial: Bytes) {
    exists other :: other in authority && other != device && authority[other].activeSerial == Some(serial)
  }

  /** The unique index allowing one active credential per device, and the serial primary key. */
  predicate CredentialConflicts(credentials: map<Bytes, Credential>, device: string, serial: Bytes) {
    || serial in credentials
    || exists s :: s in credentials && credentials[s] == Credential(device, Active)
  }

  predicate Usable(l: Ledger, device: string, now: int) {
    device in l.authority && !l.authority[device].tokenConsumed && l.authority[device].tokenExpiresAt > now
  }

  // ----- transactions: the new tables and the outcome; an error rolls back -----

  /** Revokes a device's active credential before a recovery provisioning. */
  function RevokeForRecovery(l: Ledger, device: string): Ledger
    requires device in l.authority && l.authority[device].activeSerial.Some?
  {
    var serial := l.authority[device].activeSerial.value;
    Ledger(
      l.authority[device := l.authority[device].(activeSerial := None)],
      MarkRevoked(l.credentials, device, serial),
      if serial in l.revocations then l.revocations else l.revocations[serial := device])
  }

  function Provision(l: Ledger, request: Request, tokenDigest: Bytes, now: int): (Ledger, Result<(), RepositoryError>) {
    var device := request.device;
    var m := if request.recovery && device in l.authority && l.authority[device].activeSerial.Some?
      then RevokeForRecovery(l, device) else l;
    if UpsertConflicts(m.authority, device, request.fingerprint, tokenDigest) then (l, Err(Denied)) else
    var active := if device in m.authority then m.authority[device].activeSerial else None;
    var row := Row(request.fingerprint, request.identity, tokenDigest, now + TOKEN_SECONDS, false, active);
    (m.(authority := m.authority[device := row]), Ok(()))
  }

  function ConsumeToken(l: Ledger, device: string, fingerprint: Bytes, tokenDigest: Bytes, now: int)
    : (Ledger, Result<(), RepositoryError>)
  {
    if !Usable(l, device, now) then (l, Err(Denied)) else
    var row := l.authority[device];
    if row.fingerprint != fingerprint || row.tokenDigest != tokenDigest then (l, Err(Denied)) else
    (l.(authority := l.authority[device := row.(tokenConsumed := true)]), Ok(()))
  }

  function ConsumeAndActivate(l: Ledger, device: string, tokenDigest: Bytes, prior: Option<Bytes>,
                              issued: Result<(), RepositoryError>, serial: Bytes, now: int)
    : (Ledger, Result<(), RepositoryError>)
  {
    if !Usable(l, device, now) then (l, Err(Denied)) else
    var row := l.authority[device];
    if row.tokenDigest != tokenDigest || row.activeSerial != prior then (l, Err(Denied)) else
    if issued.Err? then (l, Err(issued.error)) else
    if prior.Some? && prior.value in l.revocations then (l, Err(Unavailable)) else
    var credentials := if prior.Some? then MarkRevoked(l.credentials, device, prior.value) else l.credentials;
    var revocations := if prior.Some? then l.revocations[prior.value := device] else l.revocations;
    if SerialTaken(l.authority, device, serial) || CredentialConflicts(credentials, device, serial)
        then (l, Err(Unavailable)) else
    (Ledger(l.authority[device := row.(tokenConsumed := true, activeSerial := Some(serial))],
            credentials[serial := Credential(device, Active)], revocations), Ok(()))
  }

  // ----- invariant -----

  /** A device's active serial is an active credential row of that device ... */
  ghost predicate ActiveSerialsListed(l: Ledger) {
    forall d :: d in l.authority && l.authority[d].activeSerial.Some?
        ==> HoldsActive(l, d, l.authority[d].activeSerial.value)
  }

  /** ... and every active credential row is its device's active serial. */
  ghost predicate ActiveRowsOwned(l: Ledger) {
    forall s :: s in l.credentials && l.credentials[s].status == Active ==>
      l.credentials[s].device in l.authority && l.authority[l.credentials[s].device].activeSerial == Some(s)
  }

  /** Revocation rows are exactly the revoked credentials. */
  ghost predicate RevocationsMatch(l: Ledger) {
    && (forall s :: s in l.revocations <==> s in l.credentials && l.credentials[s].status == Revoked)
    && (forall s :: s in l.revocations ==> l.revocations[s] == l.credentials[s].device)
  }

  ghost predicate TokensIdentifyDevices(l: Ledger) {
    forall d, e :: d in l.authority && e in l.authority && l.authority[d].tokenDigest == l.authority[e].tokenDigest
        ==> d == e
  }

  ghost predicate Consistent(l: Ledger) {
    ActiveSerialsListed(l) && ActiveRowsOwned(l) && RevocationsMatch(l) && TokensIdentifyDevices(l)
  }

  predicate HoldsActive(l: Ledger, device: string, serial: Bytes) {
    serial in l.credentials && l.credentials[serial] == Credential(device, Active)
  }

  const EMPTY := Ledger(map[], map[], map[])

  /** What has been handed out and used since the beginning. */
  datatype Record = Record(provisioned: multiset<Bytes>, consumed: multiset<Bytes>)

  /** 1 while a token is stored and unused. */
  ghost function Pending(l: Ledger, token: Bytes): nat {
    if exists d :: d in l.authority && l.authority[d].tokenDigest == token
        && !l.authority[d].tokenConsumed then 1 else 0
  }

  ghost predicate Accounted(l: Ledger, h: Record) {
    && (forall token: Bytes :: h.consumed[token] + Pending(l, token) <= h.provisioned[token])
    && |l.credentials| <= |h.consumed|
  }

  // ----- runs -----

  datatype Txn =
    | DoProvision(request: Request, token: Bytes, now: int)
    | DoConsume(device: string, fingerprint: Bytes, token: Bytes, now: int)
    | DoActivate(device: string, token: Bytes, now: int, prior: Option<Bytes>, issued: Result<(), RepositoryError>,
        serial: Bytes)

  function Outcome(l: Ledger, t: Txn): (Ledger, Result<(), RepositoryError>) {
    match t
    case DoProvision(request, token, now) => Provision(l, request, token, now)
    case DoConsume(device, fingerprint, token, now) => ConsumeToken(l, device, fingerprint, token, now)
    case DoActivate(device, token, now, prior, issued, serial) => ConsumeAndActivate(l, device, token, prior, issued,
        serial, now)
  }

  function Recorded(l: Ledger, h: Record, t: Txn): Record {
    if Outcome(l, t).1.Err? then h
    else if t.DoProvision? then h.(provisioned := h.provisioned + multiset{t.token})
    else h.(consumed := h.consumed + multiset{t.token})
  }

  function After(l: Ledger, txns: seq<Txn>): Ledger
    decreases |txns|
  {
    if txns == [] then l else After(Outcome(l, txns[0]).0, txns[1..])
  }

  function RecordAfter(l: Ledger, h: Record, txns: seq<Txn>): Record
    decreases |txns|
  {
    if txns == [] then h else RecordAfter(Outcome(l, txns[0]).0, Recorded(l, h, txns[0]), txns[1..])
  }

  // ----- every transaction keeps the invariant -----

  lemma RecoveryKeepsConsistent(l: Ledger, device: string)
    requires Consistent(l) && device in l.authority && l.authority[device].activeSerial.Some?
    ensures Consistent(RevokeForRecovery(l, device))
  {
  }

  lemma ProvisionKeepsConsistent(l: Ledger, request: Request, token: Bytes, now: int)
    requires Consistent(l)
    ensures Consistent(Provision(l, request, token, now).0)
  {
    if request.recovery && request.device in l.authority && l.authority[request.device].activeSerial.Some? {
      RecoveryKeepsConsistent(l, request.device);
    }
  }

  /** The tables after an activation, entry by entry. */
  ghost predicate Activated(l: Ledger, m: Ledger, device: string, prior: Option<Bytes>, serial: Bytes) {
    && device in l.authority && l.authority[device].activeSerial == prior
    && serial !in l.credentials
    && m.authority == l.authority[device := l.authority[device].(tokenConsumed := true, activeSerial := Some(serial))]
    && m.credentials.Keys == l.credentials.Keys + {serial}
    && m.credentials[serial] == Credential(device, Active)
    && (forall s :: s in l.credentials ==>
          m.credentials[s] == if prior == Some(s) then Credential(device, Revoked) else l.credentials[s])
    && m.revocations == if prior.Some? then l.revocations[prior.value := device] else l.revocations
  }

  lemma ActivateEffect(l: Ledger, t: Txn)
    requires Consistent(l) && t.DoActivate? && Outcome(l, t).1.Ok?
    ensures Activated(l, Outcome(l, t).0, t.device, t.prior, t.serial)
  {
  }

  lemma ActivatedRevocations(l: Ledger, m: Ledger, device: string, prior: Option<Bytes>, serial: Bytes)
    requires ActiveSerialsListed(l) && RevocationsMatch(l) && Activated(l, m, device, prior, serial)
    ensures RevocationsMatch(m)
  {
    assert prior.Some? ==> HoldsActive(l, device, prior.value);
  }

  lemma ActivatedOwnership(l: Ledger, m: Ledger, device: string, prior: Option<Bytes>, serial: Bytes)
    requires ActiveSerialsListed(l) && ActiveRowsOwned(l) && Activated(l, m, device, prior, serial)
    ensures ActiveSerialsListed(m) && ActiveRowsOwned(m)
  {
    forall d | d in m.authority && m.authority[d].activeSerial.Some?
      ensures HoldsActive(m, d, m.authority[d].activeSerial.value)
    {
      if d != device {
        var s := l.authority[d].activeSerial.value;
        assert HoldsActive(l, d, s);
        assert prior == Some(s) ==> HoldsActive(l, device, s);
      }
    }
  }

  lemma ActivatedKeepsConsistent(l: Ledger, m: Ledger, device: string, prior: Option<Bytes>, serial: Bytes)
    requires Consistent(l) && Activated(l, m, device, prior, serial)
    ensures Consistent(m)
  {
    ActivatedRevocations(l, m, device, prior, serial);
    ActivatedOwnership(l, m, device, prior, serial);
  }

  lemma StepKeepsConsistent(l: Ledger, t: Txn)
    requires Consistent(l)
    ensures Consistent(Outcome(l, t).0)
  {
    match t {
      case DoProvision(request, token, now) => ProvisionKeepsConsistent(l, request, token, now);
      case DoConsume(_, _, _, _) =>
      case DoActivate(device, _, _, prior, _, serial) =>
        if Outcome(l, t).1.Ok? {
          ActivateEffect(l, t);
          ActivatedKeepsConsistent(l, Outcome(l, t).0, device, prior, serial);
        }
    }
  }

  /** Revocation is permanent, revoked serials are never active again, and no credential is lost. */
  lemma StepIsMonotone(l: Ledger, t: Txn)
    requires Consistent(l)
    ensures var m := Outcome(l, t).0;
      && l.revocations.Keys <= m.revocations.Keys
      && l.credentials.Keys <= m.credentials.Keys
      && (forall s :: s in l.revocations ==>
            m.revocations[s] == l.revocations[s] && m.credentials[s] == l.credentials[s])
  {
  }

  /** The plain revocation insert and the one-active-per-device index can never be what fails:
      an activation that passes its checks fails only because the fresh serial is already used. */
  lemma ActivationFailsOnlyOnSerial(l: Ledger, t: Txn)
    requires Consistent(l) && t.DoActivate? && t.issued.Ok?
    requires Usable(l, t.device, t.now)
    requires l.authority[t.device].tokenDigest == t.token && l.authority[t.device].activeSerial == t.prior
    ensures t.prior.Some? ==> t.prior.value !in l.revocations
    ensures Outcome(l, t).1.Ok? <==> t.serial !in l.credentials
  {
    var device := t.device;
    var credentials := if t.prior.Some? then MarkRevoked(l.credentials, device, t.prior.value) else l.credentials;
    assert credentials.Keys == l.credentials.Keys;
    forall s | s in credentials ensures credentials[s] != Credential(device, Active) {
      if t.prior != Some(s) { assert credentials[s] == l.credentials[s]; }
    }
  }

  lemma StepKeepsAccounts(l: Ledger, h: Record, t: Txn)
    requires Consistent(l) && Accounted(l, h)
    ensures Accounted(Outcome(l, t).0, Recorded(l, h, t))
  {
    hide Outcome, Pending, Consistent;
    var (m, r) := Outcome(l, t);
    var h' := Recorded(l, h, t);
    if r.Ok? {
      assert r.value == ();
      forall token: Bytes ensures h'.consumed[token] + Pending(m, token) <= h'.provisioned[token] {
        if token == t.token {
          if t.DoProvision? { AtMostOnePending(m, token); } else { TokenUsedUp(l, m, t); }
        } else {
          PendingElsewhere(l, m, t, token);
        }
      }
      if t.DoActivate? { ActivationAddsOneCredential(l, t); } else { OthersAddNoCredential(l, t); }
    } else {
      FailureKeepsTables(l, t);
    }
  }

  lemma FailureKeepsTables(l: Ledger, t: Txn)
    requires Outcome(l, t).1.Err?
    ensures Outcome(l, t).0 == l
  {
  }

  lemma AtMostOnePending(l: Ledger, token: Bytes)
    ensures Pending(l, token) <= 1
  {
  }

  lemma OthersKeepSerials(l: Ledger, t: Txn)
    requires !t.DoActivate? && Outcome(l, t).1.Ok?
    ensures Outcome(l, t).0.credentials.Keys == l.credentials.Keys
  {
  }

  lemma OthersAddNoCredential(l: Ledger, t: Txn)
    requires !t.DoActivate? && Outcome(l, t).1.Ok?
    ensures |Outcome(l, t).0.credentials| == |l.credentials|
  {
    hide Outcome;
    OthersKeepSerials(l, t);
    SameSize(l.credentials, Outcome(l, t).0.credentials);
  }

  lemma SameSize(a: map<Bytes, Credential>, b: map<Bytes, Credential>)
    requires a.Keys == b.Keys
    ensures |a| == |b|
  {
    assert |a| == |a.Keys| && |b| == |b.Keys|;
  }

  lemma OneMore(a: map<Bytes, Credential>, b: map<Bytes, Credential>, k: Bytes)
    requires k !in a && b.Keys == a.Keys + {k}
    ensures |b| == |a| + 1
  {
    assert |a| == |a.Keys| && |b| == |b.Keys|;
  }

  lemma ActivationAddsSerial(l: Ledger, t: Txn)
    requires t.DoActivate? && Outcome(l, t).1.Ok?
    ensures t.serial !in l.credentials
    ensures Outcome(l, t).0.credentials.Keys == l.credentials.Keys + {t.serial}
  {
  }

  lemma ActivationAddsOneCredential(l: Ledger, t: Txn)
    requires t.DoActivate? && Outcome(l, t).1.Ok?
    ensures |Outcome(l, t).0.credentials| == |l.credentials| + 1
  {
    hide Outcome;
    ActivationAddsSerial(l, t);
    OneMore(l.credentials, Outcome(l, t).0.credentials, t.serial);
  }

  lemma TokenUsedUp(l: Ledger, m: Ledger, t: Txn)
    requires Consistent(l) && !t.DoProvision? && Outcome(l, t) == (m, Ok(()))
    ensures Pending(l, t.token) == 1 && Pending(m, t.token) == 0
  {
  }

  lemma PendingElsewhere(l: Ledger, m: Ledger, t: Txn, token: Bytes)
    requires Consistent(l) && Outcome(l, t) == (m, Ok(())) && token != t.token
    ensures Pending(m, token) <= Pending(l, token)
  {
    if d :| d in m.authority && m.authority[d].tokenDigest == token && !m.authority[d].tokenConsumed {
      assert d in l.authority && l.authority[d].tokenDigest == token && !l.authority[d].tokenConsumed;
    }
  }

  /** Safety over every interleaving of the three transactions. */
  lemma {:induction false} RunsAreSafe(l: Ledger, h: Record, txns: seq<Txn>)
    requires Consistent(l) && Accounted(l, h)
    ensures Consistent(After(l, txns))
    ensures l.revocations.Keys <= After(l, txns).revocations.Keys
    ensures Accounted(After(l, txns), RecordAfter(l, h, txns))
    decreases |txns|
  {
    if txns != [] {
      StepKeepsConsistent(l, txns[0]);
      StepIsMonotone(l, txns[0]);
      StepKeepsAccounts(l, h, txns[0]);
      RunsAreSafe(Outcome(l, txns[0]).0, Recorded(l, h, txns[0]), txns[1..]);
    }
  }

  lemma MultisetSize(a: multiset<Bytes>, b: multiset<Bytes>)
    requires forall x: Bytes :: a[x] <= b[x]
    ensures |a| <= |b|
  {
    assert a <= b;
    assert b == a + (b - a);
  }

  /** From empty tables: a token provisioned once is consumed at most once, no more credentials are
      issued than tokens were provisioned, and a revoked serial is nobody's active serial. */
  lemma LedgerFromEmpty(txns: seq<Txn>, token: Bytes)
    ensures var l := After(EMPTY, txns);
      var h := RecordAfter(EMPTY, Record(multiset{}, multiset{}), txns);
      && h.consumed[token] <= h.provisioned[token]
      && |l.credentials| <= |h.consumed| <= |h.provisioned|
      && (forall d :: d in l.authority && l.authority[d].activeSerial.Some? ==>
            l.authority[d].activeSerial.value !in l.revocations)
      && (forall d, s, u :: HoldsActive(l, d, s) && HoldsActive(l, d, u) ==> s == u)
  {
    var none := Record(multiset{}, multiset{});
    assert Consistent(EMPTY) && Accounted(EMPTY, none);
    RunsAreSafe(EMPTY, none, txns);
    var h := RecordAfter(EMPTY, none, txns);
    MultisetSize(h.consumed, h.provisioned);
  }

  // ----- the repository object -----

  /** Holds the tables; each method works on copies and commits them, or leaves the tables alone.
      `connected` and `committed` say whether the database answers at the two ends. */
  class AuthorityRepository {
    var authority: map<string, Row>
    var credentials: map<Bytes, Credential>
    var revocations: map<Bytes, string>

    constructor ()
      ensures Tables() == EMPTY
    {
      authority, credentials, revocations := map[], map[], map[];
    }

    ghost function Tables(): Ledger
      reads this
    {
      Ledger(authority, credentials, revocations)
    }

    method ProvisionDevice(request: Request, tokenDigest: Bytes, now: int, connected: bool, committed: bool)
      returns (r: Result<(), RepositoryError>)
      modifies this
      ensures connected && committed ==> (Tables(), r) == Provision(old(Tables()), request, tokenDigest, now)
      ensures !connected || !committed ==> Tables() == old(Tables()) && r.Err?
    {
      if !connected {
        return Err(Unavailable);
      }
      var device := request.device;
      var rows, issued, revoked := authority, credentials, revocations;
      if request.recovery && device in rows && rows[device].activeSerial.Some? {
        var serial := rows[device].activeSerial.value;
        issued := MarkRevoked(issued, device, serial);
        if serial !in revoked {
          revoked := revoked[serial := device];
        }
        rows := rows[device := rows[device].(activeSerial := None)];
      }
      if UpsertConflicts(rows, device, request.fingerprint, tokenDigest) {
        return Err(Denied);
      }
      var active := if device in rows then rows[device].activeSerial else None;
      rows := rows[device := Row(request.fingerprint, request.identity, tokenDigest, now + TOKEN_SECONDS, false,
          active)];
      if !committed {
        return Err(Unavailable);
      }
      authority, credentials, revocations := rows, issued, revoked;
      return Ok(());
    }

    method ConsumeOnce(device: string, fingerprint: Bytes, tokenDigest: Bytes, now: int, connected: bool,
        committed: bool)
      returns (r: Result<(), RepositoryError>)
      modifies this
      ensures connected && committed
          ==> (Tables(), r) == ConsumeToken(old(Tables()), device, fingerprint, tokenDigest, now)
      ensures !connected || !committed ==> Tables() == old(Tables()) && r.Err?
    {
      if !connected {
        return Err(Unavailable);
      }
      if device !in authority || authority[device].tokenConsumed || authority[device].tokenExpiresAt <= now {
        return Err(Denied);
      }
      var row := authority[device];
      if row.fingerprint != fingerprint || row.tokenDigest != tokenDigest {
        return Err(Denied);
      }
      if !committed {
        return Err(Unavailable);
      }
      authority := authority[device := row.(tokenConsumed := true)];
      return Ok(());
    }

    method ConsumeTokenAndActivate(device: string, tokenDigest: Bytes, prior: Option<Bytes>,
        issued: Result<(), RepositoryError>,
        serial: Bytes, now: int, connected: bool, committed: bool)
      returns (r: Result<(), RepositoryError>)
      modifies this
      ensures connected && committed ==>
        (Tables(), r) == ConsumeAndActivate(old(Tables()), device, tokenDigest, prior, issued, serial, now)
      ensures !connected || !committed ==> Tables() == old(Tables()) && r.Err?
    {
      if !connected {
        return Err(Unavailable);
      }
      if device !in authority || authority[device].tokenConsumed || authority[device].tokenExpiresAt <= now {
        return Err(Denied);
      }
      var row := authority[device];
      if row.tokenDigest != tokenDigest || row.activeSerial != prior {
        return Err(Denied);
      }
      var _ :- issued;
      var rows, known, revoked := authority, credentials, revocations;
      if row.activeSerial.Some? {
        var previous := row.activeSerial.value;
        known := MarkRevoked(known, device, previous);
        if previous in revoked {
          return Err(Unavailable);
        }
        revoked := revoked[previous := device];
      }
      if SerialTaken(rows, device, serial) {
        return Err(Unavailable);
      }
      rows := rows[device := row.(tokenConsumed := true, activeSerial := Some(serial))];
      if CredentialConflicts(known, device, serial) || !committed {
        return Err(Unavailable);
      }
      authority, credentials, revocations := rows, known[serial := Credential(device, Active)], revoked;
      return Ok(());
    }
  }
}
