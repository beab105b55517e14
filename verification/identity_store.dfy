/**
 * The identity store: one object whose maps every repository reads and writes. No operation waits
 * for anything, so each method is one atomic step, and any interleaving of requests is a sequence
 * of calls. The ghost histories say of each table which run has led to it.
 */
module IdentityStore {
  import opened Text
  import opened Rows
  import Lifecycle
  import opened Challenges
  import Sessions
  import Factors
  import RecoveryCodes
  import PendingAuth
  import Overlap
  import Registration

  /** Verification and reset challenges live in separate tables. */
  datatype Purpose = Verification | Reset

  /** A map cleared and filled again from a snapshot. */
  method Restored<V>(snapshot: map<string, V>) returns (m: map<string, V>)
    ensures m == snapshot
  {
    m := map[];
    var keys := snapshot.Keys;
    while keys != {}
      invariant keys <= snapshot.Keys && m.Keys == snapshot.Keys - keys
      invariant forall k :: k in m ==> m[k] == snapshot[k]
      decreases |keys|
    {
      var k :| k in keys;
      m := m[k := snapshot[k]];
      keys := keys - {k};
    }
  }

  class InMemoryIdentity {
    var sequence: nat
    var byEmail: map<string, Registration.NewUser>
    var byId: map<string, Registration.NewUser>
    var challenges: seq<Option<Registration.NewChallenge>>
    var challengeRows: ChallengeTable
    var resetRows: ChallengeTable
    var passwords: map<string, string>
    var verifiedAt: map<string, int>
    var sessions: Sessions.SessionTable
    var factors: Factors.FactorTable
    var recovery: RecoveryCodes.Codes
    var pending: PendingAuth.PendingTable

    ghost var userEvents: seq<Overlap.Event>
    ghost var challengeOps: seq<Lifecycle.Op<Data>>
    ghost var resetOps: seq<Lifecycle.Op<Data>>
    ghost var sessionOps: seq<Sessions.Op>
    ghost var factorOps: seq<Factors.Op>
    ghost var recoveryOps: seq<RecoveryCodes.Op>
    ghost var pendingOps: seq<PendingAuth.Op>

    ghost predicate ChallengesValid()
      reads `challengeRows, `challengeOps
    {
      Lifecycle.Valid(challengeRows) && challengeRows == Lifecycle.Run([], challengeOps)
    }

    ghost predicate ResetsValid()
      reads `resetRows, `resetOps
    {
      Lifecycle.Valid(resetRows) && resetRows == Lifecycle.Run([], resetOps)
    }

    ghost predicate PendingValid()
      reads `pending, `pendingOps
    {
      Lifecycle.Valid(pending) && pending == PendingAuth.Run([], pendingOps)
    }

    ghost predicate SessionsValid()
      reads `sessions, `sessionOps
    {
      Distinct(sessions) && sessions == Sessions.Run([], sessionOps)
    }

    ghost predicate FactorsValid()
      reads `factors, `factorOps, `recovery, `recoveryOps
    {
      Distinct(factors) && factors == Factors.Run([], factorOps) && recovery == RecoveryCodes.Run(map[], recoveryOps)
    }

    ghost predicate Valid()
      reads this
    {
      ChallengesValid() && ResetsValid() && PendingValid() && SessionsValid() && FactorsValid() && UsersValid(map[])
    }

    /** The events recorded so far have led to these users; `open` holds the snapshot of a commit under way. */
    ghost predicate UsersValid(open: map<nat, Registration.Store>)
      reads this
    {
      Overlap.Follows(userEvents, Overlap.World(Users(), open))
    }

    /** What registration and the passwords are about. */
    ghost function Users(): Registration.Store
      reads this
    {
      Registration.Store(sequence, byEmail, byId, challenges, challengeRows, passwords, verifiedAt)
    }

    function RowsOf(purpose: Purpose): ChallengeTable
      reads `challengeRows, `resetRows
    {
      if purpose == Verification then challengeRows else resetRows
    }

    constructor ()
      ensures Valid() && Users() == Registration.EMPTY && Registration.Sound(Users())
      ensures resetRows == [] && sessions == [] && factors == [] && recovery == map[] && pending == []
    {
      Overlap.FollowsStart();
      sequence, byEmail, byId, challenges := 0, map[], map[], [];
      challengeRows, resetRows, passwords, verifiedAt := [], [], map[], map[];
      sessions, factors, recovery, pending := [], [], map[], [];
      challengeOps, resetOps, sessionOps, factorOps, recoveryOps, pendingOps := [], [], [], [], [], [];
      userEvents := [];
    }

    // ---- Users ----

    method NextUserId() returns (userId: string)
      requires UsersValid(map[])
      modifies `sequence, `userEvents
      ensures UsersValid(map[]) && sequence == old(sequence) + 1 && userId == Registration.UserIdOf(sequence)
      ensures userEvents == old(userEvents) + [Overlap.Draws]
      ensures old(Registration.Sound(Users())) ==> Registration.Sound(Users())
    {
      if Registration.Sound(Users()) {
        Registration.DrawKeepsViews(Users());
      }
      Overlap.FollowsOneMore(userEvents, Overlap.World(Users(), map[]), Overlap.Draws);
      userEvents := userEvents + [Overlap.Draws];
      sequence := sequence + 1;
      userId := Registration.ID_PREFIX + Decimal(sequence);
    }

    method CreateUser(user: Registration.NewUser, ghost open: map<nat, Registration.Store>) returns (rejected: bool)
      requires UsersValid(open)
      modifies `byEmail, `byId, `userEvents
      ensures UsersValid(open) && userEvents == old(userEvents) + [Overlap.Calls(Registration.CreatesUser(user, true))]
      ensures Overlap.ProperRun(Overlap.START, userEvents) ==> Overlap.ProperRun(Overlap.START, old(userEvents))
      ensures Users() == Registration.CreateUser(old(Users()), user)
      ensures rejected <==> user.normalizedEmail in old(byEmail)
      ensures old(Registration.Sound(Users())) && Registration.MayCreate(old(Users()), user) ==>
                Registration.Sound(Users())
    {
      if Registration.Sound(Users()) && Registration.MayCreate(Users(), user) {
        Registration.CreateDrawnKeepsViews(Users(), user);
      }
      ghost var event := Overlap.Calls(Registration.CreatesUser(user, true));
      Overlap.FollowsOneMore(userEvents, Overlap.World(Users(), open), event);
      userEvents := userEvents + [event];
      if user.normalizedEmail in byEmail { return true; }
      byEmail := byEmail[user.normalizedEmail := user];
      byId := byId[user.userId := user];
      rejected := false;
    }

    method FindAuthByNormalizedEmail(email: string) returns (found: Option<Registration.AuthUser>)
      ensures found == Registration.FindAuth(Users(), email)
    {
      if email !in byEmail { return None; }
      var user := byEmail[email];
      var hash := user.passwordHash;
      if user.userId in passwords { hash := passwords[user.userId]; }
      var verified := None;
      if user.userId in verifiedAt { verified := Some(verifiedAt[user.userId]); }
      found := Some(Registration.AuthUser(user.userId, user.normalizedEmail, hash, verified));
    }

    method FindPasswordHash(userId: string) returns (hash: Option<string>)
      ensures hash == Registration.FindPasswordHash(Users(), userId)
    {
      if userId in passwords { return Some(passwords[userId]); }
      if userId !in byId { return None; }
      hash := Some(byId[userId].passwordHash);
    }

    /** For a change of password and for a reset alike. */
    method ReplacePasswordHash(userId: string, hash: string) returns (replaced: bool)
      requires UsersValid(map[])
      modifies `passwords, `userEvents
      ensures UsersValid(map[])
      ensures userEvents == old(userEvents) + [Overlap.Serves(Registration.ReplacesPassword(userId, hash))]
      ensures Users() == Registration.ReplacePassword(old(Users()), userId, hash)
      ensures old(Registration.Sound(Users())) ==> Registration.Sound(Users())
      ensures replaced <==> userId in byId
    {
      ghost var event := Overlap.Serves(Registration.ReplacesPassword(userId, hash));
      Overlap.FollowsOneMore(userEvents, Overlap.World(Users(), map[]), event);
      userEvents := userEvents + [event];
      if userId !in byId { return false; }
      passwords := passwords[userId := hash];
      replaced := true;
    }

    method MarkEmailVerifiedIfUnverified(userId: string, at: int) returns (first: bool)
      requires UsersValid(map[])
      modifies `verifiedAt, `userEvents
      ensures UsersValid(map[]) && userEvents == old(userEvents) + [Overlap.Serves(Registration.Verifies(userId, at))]
      ensures Users() == Registration.MarkVerified(old(Users()), userId, at)
      ensures old(Registration.Sound(Users())) ==> Registration.Sound(Users())
      ensures first <==> userId !in old(verifiedAt)
    {
      ghost var event := Overlap.Serves(Registration.Verifies(userId, at));
      Overlap.FollowsOneMore(userEvents, Overlap.World(Users(), map[]), event);
      userEvents := userEvents + [event];
      if userId in verifiedAt { return false; }
      verifiedAt := verifiedAt[userId := at];
      first := true;
    }

    method CreateVerificationChallenge(c: Registration.NewChallenge, ghost open: map<nat, Registration.Store>)
      requires ChallengesValid() && UsersValid(open)
      modifies `challenges, `challengeRows, `challengeOps, `userEvents
      ensures UsersValid(open) && userEvents == old(userEvents) + [Overlap.Calls(Registration.CreatesChallenge(c))]
      ensures Overlap.ProperRun(Overlap.START, userEvents) ==> Overlap.ProperRun(Overlap.START, old(userEvents))
      ensures ChallengesValid() && Users() == Registration.CreateChallenge(old(Users()), c)
    {
      ghost var event := Overlap.Calls(Registration.CreatesChallenge(c));
      Overlap.FollowsOneMore(userEvents, Overlap.World(Users(), open), event);
      userEvents := userEvents + [event];
      challenges := challenges + [Some(c)];
      ghost var op := Lifecycle.Creates(c.challengeId, c.userId, c.createdAt, c.expiresAt,
          Data(c.tokenDigest, None, None));
      Lifecycle.ApplyKeepsValid(challengeRows, op);
      Lifecycle.RunOneMore([], challengeOps, op);
      challengeOps := challengeOps + [op];
      challengeRows := Put(challengeRows, c.challengeId,
                           Lifecycle.Life(c.userId, c.createdAt, c.expiresAt, None, None,
                               Data(c.tokenDigest, None, None)));
    }

    /** The calls of an operation, up to the first rejection that it does not catch. */
    method Perform(op: Registration.Operation, ghost open: map<nat, Registration.Store>) returns (failed: bool)
      requires ChallengesValid() && UsersValid(open)
      modifies `byEmail, `byId, `challenges, `challengeRows, `challengeOps, `userEvents
      ensures ChallengesValid() && UsersValid(open)
      ensures Overlap.ProperRun(Overlap.START, userEvents) ==> Overlap.ProperRun(Overlap.START, old(userEvents))
      ensures Registration.Performed(Users(), failed) == Registration.Perform(old(Users()), op)
    {
      ghost var all := Registration.Perform(Users(), op);
      var i := 0;
      while i < |op.calls|
        invariant i <= |op.calls| && ChallengesValid() && UsersValid(open)
        invariant Overlap.ProperRun(Overlap.START, userEvents) ==> Overlap.ProperRun(Overlap.START, old(userEvents))
        invariant Registration.Perform(Users(), Registration.Operation(op.calls[i..], op.throws)) == all
      {
        assert op.calls[i..][1..] == op.calls[i + 1..];
        var refused := Call(op.calls[i], open);
        if refused { return true; }
        i := i + 1;
      }
      failed := op.throws;
    }

    method Call(call: Registration.Call, ghost open: map<nat, Registration.Store>) returns (refused: bool)
      requires ChallengesValid() && UsersValid(open)
      modifies `byEmail, `byId, `challenges, `challengeRows, `challengeOps, `userEvents
      ensures ChallengesValid() && UsersValid(open)
      ensures Overlap.ProperRun(Overlap.START, userEvents) ==> Overlap.ProperRun(Overlap.START, old(userEvents))
      ensures refused == Registration.Rejects(old(Users()), call)
      ensures Users() == if refused then old(Users()) else Registration.Do(old(Users()), call)
    {
      refused := false;
      match call
      case CreatesUser(user, caught) =>
        var rejected := CreateUser(user, open);
        refused := rejected && !caught;
      case CreatesChallenge(challenge) =>
        CreateVerificationChallenge(challenge, open);
    }

    /** Snapshot, operation, and on failure the restoring of the snapshot. */
    method Commit(op: Registration.Operation) returns (failed: bool)
      requires ChallengesValid() && UsersValid(map[])
      modifies `byEmail, `byId, `challenges, `challengeRows, `challengeOps, `userEvents
      ensures ChallengesValid() && UsersValid(map[])
      ensures Registration.Performed(Users(), failed) == Registration.Commit(old(Users()), op)
    {
      var emails, ids, challengeCount := byEmail, byId, |challenges|;
      ghost var before := Users();
      Overlap.RollbackIsSound(before, op);
      Overlap.FollowsOpening(userEvents, Overlap.World(before, map[]), 0);
      userEvents := userEvents + [Overlap.Opens(0)];
      failed := Perform(op, map[0 := before]);
      if failed {
        PutBack(emails, ids, challengeCount, before);
      } else {
        Close(before);
      }
    }

    ghost method Close(before: Registration.Store)
      requires UsersValid(map[0 := before])
      modifies `userEvents
      ensures UsersValid(map[])
    {
      Overlap.FollowsEnd(userEvents, Overlap.World(Users(), map[0 := before]), 0, false);
      userEvents := userEvents + [Overlap.Succeeds(0)];
    }

    /** What a commit does when its operation has failed. */
    method PutBack(emails: map<string, Registration.NewUser>, ids: map<string, Registration.NewUser>,
                   challengeCount: nat, ghost before: Registration.Store)
      requires UsersValid(map[0 := before])
      requires emails == before.byEmail && ids == before.byId && challengeCount == |before.challenges| <= |challenges|
      requires Overlap.ProperRun(Overlap.START, userEvents) ==>
                 Registration.Sound(Registration.Rollback(Users(), before))
      modifies `byEmail, `byId, `challenges, `userEvents
      ensures UsersValid(map[]) && Users() == Registration.Rollback(old(Users()), before)
    {
      Overlap.FollowsEnd(userEvents, Overlap.World(Users(), map[0 := before]), 0, true);
      userEvents := userEvents + [Overlap.Fails(0)];
      byEmail := Restored(emails);
      byId := Restored(ids);
      challenges := challenges[..challengeCount];
    }

    /** A registration: an id is drawn, then the user and its challenge are created together. */
    method Register(p: Registration.Profile, reach: nat, throws: bool) returns (failed: bool)
      requires ChallengesValid() && UsersValid(map[])
      modifies `sequence, `byEmail, `byId, `challenges, `challengeRows, `challengeOps, `userEvents
      ensures ChallengesValid() && UsersValid(map[])
              && Users() == Registration.Serve(old(Users()), Registration.Registers(p, reach, throws))
      ensures old(Registration.Sound(Users())) ==> Registration.Sound(Users())
    {
      ghost var before := Users();
      Registration.ServeKeepsSound(before, Registration.Registers(p, reach, throws));
      var userId := NextUserId();
      assert Users() == before.(sequence := before.sequence + 1);
      failed := Commit(Registration.RegistrationOf(userId, p, reach, throws));
    }

    // ---- Challenges, for verification and for reset ----

    ghost function OpsOf(purpose: Purpose): seq<Lifecycle.Op<Data>>
      reads `challengeOps, `resetOps
    {
      if purpose == Verification then challengeOps else resetOps
    }

    ghost predicate BothValid()
      reads this
    {
      ChallengesValid() && ResetsValid() && UsersValid(map[])
    }

    twostate predicate Stepped(purpose: Purpose, op: Lifecycle.Op<Data>)
      reads `challengeRows, `challengeOps, `resetRows, `resetOps
    {
      var other := if purpose == Verification then Reset else Verification;
      RowsOf(purpose) == Lifecycle.Apply(old(RowsOf(purpose)), op) && OpsOf(purpose) == old(OpsOf(purpose)) + [op]
      && RowsOf(other) == old(RowsOf(other)) && OpsOf(other) == old(OpsOf(other))
    }

    method SetChallengeRows(rows: ChallengeTable, ghost op: Lifecycle.Op<Data>)
      requires UsersValid(map[]) && rows == Lifecycle.Apply(challengeRows, op)
      modifies `challengeRows, `challengeOps, `userEvents
      ensures UsersValid(map[]) && challengeRows == rows && challengeOps == old(challengeOps) + [op]
      ensures userEvents == old(userEvents) + [Overlap.Serves(Registration.Challenged(op))]
    {
      ghost var event := Overlap.Serves(Registration.Challenged(op));
      Overlap.FollowsOneMore(userEvents, Overlap.World(Users(), map[]), event);
      userEvents := userEvents + [event];
      challengeRows, challengeOps := rows, challengeOps + [op];
    }

    method SetRows(purpose: Purpose, rows: ChallengeTable, ghost op: Lifecycle.Op<Data>)
      requires BothValid() && rows == Lifecycle.Apply(RowsOf(purpose), op)
      modifies `challengeRows, `challengeOps, `resetRows, `resetOps, `userEvents
      ensures BothValid() && Stepped(purpose, op)
    {
      Lifecycle.ApplyKeepsValid(RowsOf(purpose), op);
      Lifecycle.RunOneMore([], OpsOf(purpose), op);
      if purpose == Verification {
        SetChallengeRows(rows, op);
      } else {
        resetRows, resetOps := rows, resetOps + [op];
      }
    }

    method CreateChallenge(purpose: Purpose, id: string, userId: string, createdAt: int, expiresAt: int, data: Data)
      requires BothValid()
      modifies `challengeRows, `challengeOps, `resetRows, `resetOps, `userEvents
      ensures BothValid() && Stepped(purpose, Lifecycle.Creates(id, userId, createdAt, expiresAt, data))
    {
      var rows := Put(RowsOf(purpose), id, Lifecycle.Life(userId, createdAt, expiresAt, None, None, data));
      SetRows(purpose, rows, Lifecycle.Creates(id, userId, createdAt, expiresAt, data));
    }

    method ConsumeIfActive(purpose: Purpose, id: string, now: int) returns (consumed: bool)
      requires BothValid()
      modifies `challengeRows, `challengeOps, `resetRows, `resetOps, `userEvents
      ensures BothValid() && Stepped(purpose, Lifecycle.Consumes(id, now))
      ensures consumed == Lifecycle.Consumable(old(RowsOf(purpose)), id, now)
    {
      var rows := RowsOf(purpose);
      consumed := false;
      if Has(rows, id) {
        var row: Lifecycle.Life<Data> := Get(rows, id);
        if !(row.consumedAt.Some? || row.closedAt.Some? || row.expiresAt <= now) {
          rows := Put(rows, id, row.(consumedAt := Some(now)));
          consumed := true;
        }
      }
      SetRows(purpose, rows, Lifecycle.Consumes(id, now));
    }

    method SupersedeActiveForUser(purpose: Purpose, userId: string, now: int) returns (count: nat)
      requires BothValid()
      modifies `challengeRows, `challengeOps, `resetRows, `resetOps, `userEvents
      ensures BothValid() && Stepped(purpose, Lifecycle.Closes(userId, now))
      ensures count == Lifecycle.CountOpen(old(RowsOf(purpose)), userId)
    {
      var rows;
      rows, count := Lifecycle.CloseOpenRows(RowsOf(purpose), userId, now);
      SetRows(purpose, rows, Lifecycle.Closes(userId, now));
    }

    method FindSealed(purpose: Purpose, id: string, now: int) returns (found: Option<Sealed>)
      ensures found == FindSealedIfActive(RowsOf(purpose), id, now)
    {
      var rows := RowsOf(purpose);
      if !Has(rows, id) { return None; }
      var row: Lifecycle.Life<Data> := Get(rows, id);
      if row.consumedAt.Some? || row.closedAt.Some? || row.expiresAt <= now { return None; }
      if row.payload.sealedSecret.None? || row.payload.sealedKeyVersion.None? { return None; }
      found := Some(Sealed(row.payload.sealedSecret.value, row.payload.sealedKeyVersion.value));
    }

    method ScrubSecrets(purpose: Purpose, now: int, limit: int) returns (scrubbed: nat)
      requires BothValid()
      modifies `challengeRows, `challengeOps, `resetRows, `resetOps, `userEvents
      ensures BothValid()
      ensures Stepped(purpose, Lifecycle.Amends(Payloads(Scrubbed(old(RowsOf(purpose)), now, limit))))
      ensures RowsOf(purpose) == Scrubbed(old(RowsOf(purpose)), now, limit)
      ensures scrubbed == ScrubCount(old(RowsOf(purpose)), now, limit)
    {
      var rows;
      ScrubbingOnlyAmends(RowsOf(purpose), now, limit);
      rows, scrubbed := ScrubExpiredSecrets(RowsOf(purpose), now, limit);
      SetRows(purpose, rows, Lifecycle.Amends(Payloads(rows)));
    }

    // ---- Sessions, behind both of their ports ----

    method SetSessions(rows: Sessions.SessionTable, ghost op: Sessions.Op)
      requires SessionsValid() && rows == Sessions.Apply(sessions, op)
      modifies `sessions, `sessionOps
      ensures SessionsValid() && sessions == rows && sessionOps == old(sessionOps) + [op]
    {
      Sessions.ApplyKeepsDistinct(sessions, op);
      Sessions.RunOneMore([], sessionOps, op);
      sessions, sessionOps := rows, sessionOps + [op];
    }

    method CreateSession(id: string, userId: string, tokenHash: string, csrfTokenHash: string, createdAt: int,
                         expiresAt: int)
      requires SessionsValid()
      modifies `sessions, `sessionOps
      ensures SessionsValid()
      ensures sessionOps ==
              old(sessionOps) + [Sessions.Creates(id, userId, tokenHash, csrfTokenHash, createdAt, expiresAt)]
      ensures sessions == Sessions.Create(old(sessions), id, userId, tokenHash, csrfTokenHash, createdAt, expiresAt)
    {
      var session := Sessions.Session(userId, tokenHash, csrfTokenHash, createdAt, createdAt, expiresAt, None, None);
      SetSessions(Put(sessions, id, session),
          Sessions.Creates(id, userId, tokenHash, csrfTokenHash, createdAt, expiresAt));
    }

    method TouchSession(id: string, at: int)
      requires SessionsValid()
      modifies `sessions, `sessionOps
      ensures SessionsValid() && sessionOps == old(sessionOps) + [Sessions.Touches(id, at)]
      ensures sessions == Sessions.Touch(old(sessions), id, at)
    {
      var rows := sessions;
      if Has(rows, id) { rows := Put(rows, id, Get(rows, id).(lastSeenAt := at)); }
      SetSessions(rows, Sessions.Touches(id, at));
    }

    method RevokeSession(id: string, at: int, reason: string)
      requires SessionsValid()
      modifies `sessions, `sessionOps
      ensures SessionsValid() && sessionOps == old(sessionOps) + [Sessions.Revokes(id, at, reason)]
      ensures sessions == Sessions.Revoke(old(sessions), id, at, reason)
    {
      var rows := sessions;
      if Has(rows, id) && Get(rows, id).revokedAt.None? {
        rows := Put(rows, id, Get(rows, id).(revokedAt := Some(at), revocationReason := Some(reason)));
      }
      SetSessions(rows, Sessions.Revokes(id, at, reason));
    }

    method RevokeOwnedByUser(userId: string, id: string, at: int, reason: string) returns (revoked: bool)
      requires SessionsValid()
      modifies `sessions, `sessionOps
      ensures SessionsValid() && sessionOps == old(sessionOps) + [Sessions.RevokesOwned(userId, id, at, reason)]
      ensures sessions == Sessions.RevokeOwned(old(sessions), userId, id, at, reason)
      ensures revoked == Sessions.Owns(old(sessions), userId, id)
    {
      var rows := sessions;
      revoked := Has(rows, id) && Get(rows, id).userId == userId && Get(rows, id).revokedAt.None?;
      if revoked {
        rows := Put(rows, id, Get(rows, id).(revokedAt := Some(at), revocationReason := Some(reason)));
      }
      SetSessions(rows, Sessions.RevokesOwned(userId, id, at, reason));
    }

    /** With no session to keep, what a password reset calls. */
    method RevokeAllForUser(userId: string, keep: Option<string>, at: int, reason: string) returns (count: nat)
      requires SessionsValid()
      modifies `sessions, `sessionOps
      ensures SessionsValid() && sessionOps == old(sessionOps) + [Sessions.RevokesAll(userId, keep, at, reason)]
      ensures sessions == Sessions.RevokeAll(old(sessions), userId, keep, at, reason)
      ensures count == |Sessions.ListActive(old(sessions), userId)| - |Sessions.ListActive(sessions, userId)|
    {
      var rows;
      rows, count := Sessions.RevokeAllRows(sessions, userId, keep, at, reason);
      SetSessions(rows, Sessions.RevokesAll(userId, keep, at, reason));
    }

    // ---- Second factors ----

    method SetFactors(rows: Factors.FactorTable, ghost op: Factors.Op)
      requires FactorsValid() && rows == Factors.Apply(factors, op)
      modifies `factors, `factorOps
      ensures FactorsValid() && factors == rows && factorOps == old(factorOps) + [op]
    {
      Factors.ApplyKeepsDistinct(factors, op);
      Factors.RunOneMore([], factorOps, op);
      factors, factorOps := rows, factorOps + [op];
    }

    method CreateFactor(id: string, userId: string, factorType: string, secretCiphertext: string,
                        secretKeyVersion: string, createdAt: int)
      requires FactorsValid()
      modifies `factors, `factorOps
      ensures FactorsValid()
      ensures factorOps == old(factorOps)
              + [Factors.Creates(id, userId, factorType, secretCiphertext, secretKeyVersion, createdAt)]
      ensures factors ==
              Factors.Create(old(factors), id, userId, factorType, secretCiphertext, secretKeyVersion, createdAt)
    {
      var factor := Factors.Factor(userId, factorType, Some(secretCiphertext), Some(secretKeyVersion), createdAt, None,
          None, None);
      SetFactors(Put(factors, id, factor),
          Factors.Creates(id, userId, factorType, secretCiphertext, secretKeyVersion, createdAt));
    }

    method MarkVerifiedIfPending(id: string, verifiedAt: int) returns (marked: bool)
      requires FactorsValid()
      modifies `factors, `factorOps
      ensures FactorsValid() && factorOps == old(factorOps) + [Factors.MarksVerified(id, verifiedAt)]
      ensures factors == Factors.MarkVerified(old(factors), id, verifiedAt)
              && marked == Factors.Pending(old(factors), id)
    {
      var rows := factors;
      marked := Has(rows, id) && !(Get(rows, id).verifiedAt.Some? || Get(rows, id).disabledAt.Some?);
      if marked { rows := Put(rows, id, Get(rows, id).(verifiedAt := Some(verifiedAt))); }
      SetFactors(rows, Factors.MarksVerified(id, verifiedAt));
    }

    method AdvanceTimeStepIfNewer(id: string, timeStep: int) returns (advanced: bool)
      requires FactorsValid()
      modifies `factors, `factorOps
      ensures FactorsValid() && factorOps == old(factorOps) + [Factors.Advances(id, timeStep)]
      ensures factors == Factors.Advance(old(factors), id, timeStep)
      ensures advanced == Factors.Accepts(old(factors), id, timeStep)
    {
      var rows := factors;
      advanced := false;
      if Has(rows, id) {
        var last := Get(rows, id).lastUsedTimeStep;
        if !(last.Some? && last.value >= timeStep) {
          rows := Put(rows, id, Get(rows, id).(lastUsedTimeStep := Some(timeStep)));
          advanced := true;
        }
      }
      SetFactors(rows, Factors.Advances(id, timeStep));
    }

    method DisableFactor(id: string, disabledAt: int) returns (disabled: bool)
      requires FactorsValid()
      modifies `factors, `factorOps
      ensures FactorsValid() && factorOps == old(factorOps) + [Factors.Disables(id, disabledAt)]
      ensures factors == Factors.Disable(old(factors), id, disabledAt) && disabled == Factors.Enabled(old(factors), id)
    {
      var rows := factors;
      disabled := Has(rows, id) && Get(rows, id).disabledAt.None?;
      if disabled { rows := Put(rows, id, Get(rows, id).(disabledAt := Some(disabledAt))); }
      SetFactors(rows, Factors.Disables(id, disabledAt));
    }

    // ---- Recovery codes ----

    method SetRecovery(state: RecoveryCodes.Codes, ghost op: RecoveryCodes.Op)
      requires FactorsValid() && state == RecoveryCodes.Apply(recovery, op)
      modifies `recovery, `recoveryOps
      ensures FactorsValid() && recovery == state && recoveryOps == old(recoveryOps) + [op]
    {
      RecoveryCodes.RunOneMore(map[], recoveryOps, op);
      recovery, recoveryOps := state, recoveryOps + [op];
    }

    method ReplaceAllCodes(userId: string, codes: seq<RecoveryCodes.NewCode>)
      requires FactorsValid()
      modifies `recovery, `recoveryOps
      ensures FactorsValid() && recoveryOps == old(recoveryOps) + [RecoveryCodes.Replaces(userId, codes)]
      ensures recovery == RecoveryCodes.ReplaceAll(old(recovery), userId, codes)
    {
      SetRecovery(recovery[userId := RecoveryCodes.Unspent(codes)], RecoveryCodes.Replaces(userId, codes));
    }

    method ConsumeCode(userId: string, digest: string, now: int) returns (consumed: bool)
      requires FactorsValid()
      modifies `recovery, `recoveryOps
      ensures FactorsValid() && recoveryOps == old(recoveryOps) + [RecoveryCodes.Consumes(userId, digest, now)]
      ensures recovery == RecoveryCodes.Consume(old(recovery), userId, digest, now)
      ensures consumed == RecoveryCodes.Usable(old(recovery), userId, digest)
    {
      var state, codes := recovery, RecoveryCodes.CodesOf(recovery, userId);
      var i := RecoveryCodes.FindUnused(codes, digest);
      consumed := i < |codes|;
      if consumed { state := state[userId := codes[i := codes[i].(consumedAt := Some(now))]]; }
      SetRecovery(state, RecoveryCodes.Consumes(userId, digest, now));
    }

    method DeleteAllCodes(userId: string)
      requires FactorsValid()
      modifies `recovery, `recoveryOps
      ensures FactorsValid() && recoveryOps == old(recoveryOps) + [RecoveryCodes.Deletes(userId)]
      ensures recovery == RecoveryCodes.DeleteAll(old(recovery), userId)
    {
      SetRecovery(recovery - {userId}, RecoveryCodes.Deletes(userId));
    }

    // ---- Pending authentications ----

    method SetPending(rows: PendingAuth.PendingTable, ghost op: PendingAuth.Op)
      requires PendingValid() && rows == PendingAuth.Apply(pending, op)
      modifies `pending, `pendingOps
      ensures PendingValid() && pending == rows && pendingOps == old(pendingOps) + [op]
    {
      PendingAuth.StepIsLife(pending, op);
      Lifecycle.ApplyKeepsValid(pending, PendingAuth.AsLife(pending, op));
      PendingAuth.RunOneMore([], pendingOps, op);
      pending, pendingOps := rows, pendingOps + [op];
    }

    method BeginPending(id: string, userId: string, digest: string, createdAt: int, expiresAt: int, maxAttempts: int,
                        way: string)
      requires PendingValid()
      modifies `pending, `pendingOps
      ensures PendingValid()
      ensures pendingOps ==
              old(pendingOps) + [PendingAuth.Begins(id, userId, digest, createdAt, expiresAt, maxAttempts, way)]
      ensures pending == PendingAuth.Apply(old(pending),
              PendingAuth.Begins(id, userId, digest, createdAt, expiresAt, maxAttempts, way))
    {
      var attempts := PendingAuth.Attempts(digest, 0, maxAttempts, way);
      SetPending(Put(pending, id, Lifecycle.Life(userId, createdAt, expiresAt, None, None, attempts)),
                 PendingAuth.Begins(id, userId, digest, createdAt, expiresAt, maxAttempts, way));
    }

    method RecordFailedAttempt(id: string) returns (outcome: PendingAuth.Outcome)
      requires PendingValid()
      modifies `pending, `pendingOps
      ensures PendingValid() && pendingOps == old(pendingOps) + [PendingAuth.Fails(id)]
      ensures pending == PendingAuth.RecordFailed(old(pending), id)
              && outcome == PendingAuth.OutcomeOf(old(pending), id)
    {
      var rows := pending;
      outcome := PendingAuth.Outcome(0, true);
      if Has(rows, id) {
        var row: Lifecycle.Life<PendingAuth.Attempts> := Get(rows, id);
        var attempts: PendingAuth.Attempts := row.payload;
        var failed := attempts.failedAttempts + 1;
        rows := Put(rows, id, row.(payload := attempts.(failedAttempts := failed)));
        outcome := PendingAuth.Outcome(failed, failed >= attempts.maxAttempts);
      }
      SetPending(rows, PendingAuth.Fails(id));
    }

    method ConsumeIfUsable(id: string, now: int) returns (consumed: bool)
      requires PendingValid()
      modifies `pending, `pendingOps
      ensures PendingValid() && pendingOps == old(pendingOps) + [PendingAuth.Consumes(id, now)]
      ensures pending == Lifecycle.Consume(old(pending), id, now)
              && consumed == PendingAuth.Usable(old(pending), id, now)
    {
      var rows := pending;
      consumed := false;
      if Has(rows, id) {
        var row: Lifecycle.Life<PendingAuth.Attempts> := Get(rows, id);
        if !(row.consumedAt.Some? || row.closedAt.Some? || row.expiresAt <= now) {
          rows := Put(rows, id, row.(consumedAt := Some(now)));
          consumed := true;
        }
      }
      SetPending(rows, PendingAuth.Consumes(id, now));
    }

    method RevokePending(userId: string, now: int) returns (count: nat)
      requires PendingValid()
      modifies `pending, `pendingOps
      ensures PendingValid() && pendingOps == old(pendingOps) + [PendingAuth.RevokesAll(userId, now)]
      ensures pending == Lifecycle.CloseOpen(old(pending), userId, now)
      ensures count == Lifecycle.CountOpen(old(pending), userId)
    {
      var rows;
      rows, count := Lifecycle.CloseOpenRows(pending, userId, now);
      SetPending(rows, PendingAuth.RevokesAll(userId, now));
    }

    // ---- What holds of the store after any sequence of calls ----

    /** After any calls that create users under drawn and unused ids: both password lookups agree. */
    lemma PasswordLookupsAgree(email: string, userId: string)
      requires UsersValid(map[]) && Overlap.ProperRun(Overlap.START, userEvents)
      ensures Registration.LookupsAgree(Users(), email, userId)
    {}

    /** As long as session ids are fresh: active and revoked sessions are the sessions created. */
    lemma SessionsConserved(userId: string)
      requires SessionsValid() && Sessions.FreshRun([], sessionOps)
      ensures |Sessions.ListActive(sessions, userId)| + Sessions.CountRevoked(sessions, userId)
           == Sessions.Created(sessionOps, userId)
    {
      Sessions.SessionsAreConserved([], sessionOps, userId);
    }

    /** As long as challenge ids are fresh: a challenge has been redeemed once if its row says so, and otherwise not. */
    lemma RedeemedOnce(purpose: Purpose, id: string)
      requires BothValid() && Lifecycle.FreshRun([], OpsOf(purpose))
      ensures Lifecycle.Successes([], OpsOf(purpose), id) == Lifecycle.ConsumedFlag(RowsOf(purpose), id)
    {
      Lifecycle.ConsumedAtMostOnce([], OpsOf(purpose), id);
    }

    /** As long as factor ids are fresh: a time step is accepted exactly if it is newer than all accepted so far. */
    lemma NoReplay(id: string, timeStep: int)
      requires FactorsValid() && Factors.FreshRun([], factorOps)
      ensures var steps := Factors.AcceptedSteps([], factorOps, id);
              Factors.Accepts(factors, id, timeStep) <==>
                Has(factors, id) && forall i :: 0 <= i < |steps| ==> steps[i] < timeStep
    {
      Factors.AcceptedExactlyIfNewer([], factorOps, id, timeStep);
    }

    /** What `countUnusedForUser` returns is what was issued less what was used since. */
    lemma CodesLeft(userId: string)
      requires FactorsValid()
      ensures var tally := RecoveryCodes.TrackRun(map[], recoveryOps, userId, None, RecoveryCodes.Tally(0, 0));
              RecoveryCodes.CountUnused(RecoveryCodes.CodesOf(recovery, userId), None) == tally.issued - tally.spent
    {
      RecoveryCodes.CodesAreConserved(map[], recoveryOps, userId, None, RecoveryCodes.Tally(0, 0));
    }
  }
}
