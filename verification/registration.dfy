/**
 * Users, their passwords and their registration: two indexes of the same users, and a commit that
 * takes a snapshot and puts it back when the operation fails.
 */
module Registration {
  import opened Text
  import opened Rows
  import Lifecycle
  import opened Challenges

  datatype NewUser = NewUser(userId: string, normalizedEmail: string, email: string, passwordHash: string,
                             displayName: string, organization: Option<string>, intendedUse: Option<string>,
                             termsVersion: string, termsAcceptedAt: int, createdAt: int)

  datatype NewChallenge = NewChallenge(challengeId: string, userId: string, tokenDigest: string, createdAt: int,
      expiresAt: int)

  datatype Store = Store(sequence: nat, byEmail: map<string, NewUser>, byId: map<string, NewUser>,
                         challenges: seq<Option<NewChallenge>>, challengeRows: ChallengeTable,
                         passwords: map<string, string>, verifiedAt: map<string, int>)

  const EMPTY := Store(0, map[], map[], [], [], map[], map[])

  // ---- Ids ----

  const ID_PREFIX := "usr_dev_"

  function UserIdOf(n: nat): string { ID_PREFIX + Decimal(n) }

  /** The n-th id is never drawn again. */
  lemma UserIdInjective(m: nat, n: nat)
    requires UserIdOf(m) == UserIdOf(n)
    ensures m == n
  {
    assert UserIdOf(m)[|ID_PREFIX|..] == Decimal(m);
    assert UserIdOf(n)[|ID_PREFIX|..] == Decimal(n);
    DecimalInjective(m, n);
  }

  // ---- The operations as functions ----

  function CreateUser(store: Store, user: NewUser): Store {
    if user.normalizedEmail in store.byEmail then store
    else store.(byEmail := store.byEmail[user.normalizedEmail := user], byId := store.byId[user.userId := user])
  }

  function CreateChallenge(store: Store, c: NewChallenge): Store {
    store.(challenges := store.challenges + [Some(c)],
           challengeRows := Lifecycle.Create(store.challengeRows, c.challengeId, c.userId, c.createdAt, c.expiresAt,
                                             Data(c.tokenDigest, None, None)))
  }

  function ReplacePassword(store: Store, userId: string, hash: string): Store {
    if userId in store.byId then store.(passwords := store.passwords[userId := hash]) else store
  }

  function MarkVerified(store: Store, userId: string, at: int): Store {
    if userId in store.verifiedAt then store else store.(verifiedAt := store.verifiedAt[userId := at])
  }

  function FindPasswordHash(store: Store, userId: string): Option<string> {
    if userId in store.passwords then Some(store.passwords[userId])
    else if userId in store.byId then Some(store.byId[userId].passwordHash)
    else None
  }

  datatype AuthUser = AuthUser(userId: string, normalizedEmail: string, passwordHash: string,
      emailVerifiedAt: Option<int>)

  function FindAuth(store: Store, email: string): Option<AuthUser> {
    if email !in store.byEmail then None
    else
      var user := store.byEmail[email];
      var hash := if user.userId in store.passwords then store.passwords[user.userId] else user.passwordHash;
      var verified := if user.userId in store.verifiedAt then Some(store.verifiedAt[user.userId]) else None;
      Some(AuthUser(user.userId, user.normalizedEmail, hash, verified))
  }

  // ---- Commit ----

  /** What an operation asks of the store. A rejection that it does not catch ends it. */
  datatype Call = CreatesUser(user: NewUser, caught: bool) | CreatesChallenge(challenge: NewChallenge)

  datatype Operation = Operation(calls: seq<Call>, throws: bool)

  datatype Performed = Performed(store: Store, failed: bool)

  predicate Rejects(store: Store, call: Call) {
    call.CreatesUser? && !call.caught && call.user.normalizedEmail in store.byEmail
  }

  function Do(store: Store, call: Call): Store {
    match call
    case CreatesUser(user, _) => CreateUser(store, user)
    case CreatesChallenge(challenge) => CreateChallenge(store, challenge)
  }

  function Perform(store: Store, op: Operation): Performed
    decreases |op.calls|
  {
    if op.calls == [] then Performed(store, op.throws)
    else if Rejects(store, op.calls[0]) then Performed(store, true)
    else Perform(Do(store, op.calls[0]), Operation(op.calls[1..], op.throws))
  }

  /** `list.length = n`: a list that is shorter is filled up with holes. */
  function SetLength<T>(list: seq<Option<T>>, n: nat): seq<Option<T>> {
    if n <= |list| then list[..n] else list + seq(n - |list|, _ => None)
  }

  /** Only the two indexes and the list of challenges are put back. */
  function Rollback(store: Store, before: Store): Store {
    store.(byEmail := before.byEmail, byId := before.byId,
        challenges := SetLength(store.challenges, |before.challenges|))
  }

  function Commit(store: Store, op: Operation): Performed {
    var done := Perform(store, op);
    if done.failed then Performed(Rollback(done.store, store), true) else done
  }

  lemma {:induction false} PerformOnlyAdds(store: Store, op: Operation)
    ensures var later := Perform(store, op).store;
            store.challenges <= later.challenges && later.passwords == store.passwords
            && later.verifiedAt == store.verifiedAt && later.sequence == store.sequence
    decreases |op.calls|
  {
    if op.calls == [] || Rejects(store, op.calls[0]) {
    } else {
      PerformOnlyAdds(Do(store, op.calls[0]), Operation(op.calls[1..], op.throws));
    }
  }

  /**
   * A failed commit puts back everything but the challenge rows, which keep whatever the operation
   * wrote.
   */
  lemma FailedCommitRestores(store: Store, op: Operation)
    requires Commit(store, op).failed
    ensures Commit(store, op).store == store.(challengeRows := Perform(store, op).store.challengeRows)
  {
    PerformOnlyAdds(store, op);
  }

  // ---- Two views of one set of users ----

  predicate EmailsMatch(byEmail: map<string, NewUser>, byId: map<string, NewUser>) {
    forall e :: e in byEmail ==>
      byEmail[e].normalizedEmail == e && byEmail[e].userId in byId && byId[byEmail[e].userId] == byEmail[e]
  }

  predicate IdsMatch(byEmail: map<string, NewUser>, byId: map<string, NewUser>) {
    forall i :: i in byId ==>
      byId[i].userId == i && byId[i].normalizedEmail in byEmail && byEmail[byId[i].normalizedEmail] == byId[i]
  }

  predicate TwoViews(store: Store) {
    EmailsMatch(store.byEmail, store.byId) && IdsMatch(store.byEmail, store.byId)
  }

  /** Creating a user keeps the views together exactly if it is rejected or the id is not in use. */
  lemma CreateKeepsTwoViews(store: Store, user: NewUser)
    requires TwoViews(store)
    ensures TwoViews(CreateUser(store, user)) <==> user.normalizedEmail in store.byEmail || user.userId !in store.byId
  {
    if user.normalizedEmail !in store.byEmail && user.userId in store.byId {
      var other := store.byId[user.userId];
      assert CreateUser(store, user).byEmail[other.normalizedEmail] == other;
    }
  }

  // ---- Runs of requests that do not overlap ----

  /** Everything about the user to be registered that is not drawn by the store. */
  datatype Profile = Profile(normalizedEmail: string, email: string, passwordHash: string, displayName: string,
                             organization: Option<string>, intendedUse: Option<string>, termsVersion: string,
                             now: int, challengeId: string, tokenDigest: string, expiresAt: int)

  /** A registration that throws does so after its first `reach` calls. */
  datatype Request =
    | Registers(profile: Profile, reach: nat, throws: bool)
    | ReplacesPassword(userId: string, hash: string)
    | Verifies(userId: string, at: int)
    | Challenged(op: Lifecycle.Op<Data>)

  function UserOf(userId: string, p: Profile): NewUser {
    NewUser(userId, p.normalizedEmail, p.email, p.passwordHash, p.displayName, p.organization, p.intendedUse,
            p.termsVersion, p.now, p.now)
  }

  function ChallengeOf(userId: string, p: Profile): NewChallenge {
    NewChallenge(p.challengeId, userId, p.tokenDigest, p.now, p.expiresAt)
  }

  /** Create the user, then its challenge; both or neither. */
  function RegistrationOf(userId: string, p: Profile, reach: nat, throws: bool): Operation {
    var calls := [CreatesUser(UserOf(userId, p), false), CreatesChallenge(ChallengeOf(userId, p))];
    if throws && reach < 2 then Operation(calls[..reach], true) else Operation(calls, throws)
  }

  function Serve(store: Store, request: Request): Store {
    match request
    case Registers(p, reach, throws) =>
      var drawn := store.(sequence := store.sequence + 1);
      Commit(drawn, RegistrationOf(UserIdOf(store.sequence + 1), p, reach, throws)).store
    case ReplacesPassword(userId, hash) => ReplacePassword(store, userId, hash)
    case Verifies(userId, at) => MarkVerified(store, userId, at)
    case Challenged(op) => store.(challengeRows := Lifecycle.Apply(store.challengeRows, op))
  }

  function Run(store: Store, requests: seq<Request>): Store
    decreases |requests|
  {
    if requests == [] then store else Run(Serve(store, requests[0]), requests[1..])
  }

  predicate Taken(store: Store, p: Profile) { p.normalizedEmail in store.byEmail }

  /** What a registration leaves behind, in each of its cases. */
  lemma RegistrationLeaves(store: Store, p: Profile, reach: nat, throws: bool)
    ensures var userId := UserIdOf(store.sequence + 1);
            var drawn := store.(sequence := store.sequence + 1);
            Serve(store, Registers(p, reach, throws)) ==
              if !throws && !Taken(store, p)
                then CreateChallenge(CreateUser(drawn, UserOf(userId, p)), ChallengeOf(userId, p))
              else if throws && reach >= 2 && !Taken(store, p)
                then drawn.(challengeRows := CreateChallenge(drawn, ChallengeOf(userId, p)).challengeRows)
              else drawn
  {
    var userId := UserIdOf(store.sequence + 1);
    var drawn := store.(sequence := store.sequence + 1);
    var user, challenge := CreatesUser(UserOf(userId, p), false), CreatesChallenge(ChallengeOf(userId, p));
    PerformTwo(drawn, user, challenge, throws);
    PerformOne(drawn, user);
    if throws && reach < 2 {
      assert [user, challenge][..reach] == if reach == 0 then [] else [user];
    }
    var op := RegistrationOf(userId, p, reach, throws);
    if Commit(drawn, op).failed {
      FailedCommitRestores(drawn, op);
    }
  }

  lemma PerformOne(store: Store, call: Call)
    ensures Perform(store, Operation([call], true)) ==
            Performed(if Rejects(store, call) then store else Do(store, call), true)
    ensures Perform(store, Operation([], true)) == Performed(store, true)
  {
    assert [call][1..] == [];
  }

  lemma PerformTwo(store: Store, user: Call, challenge: Call, throws: bool)
    requires user.CreatesUser? && challenge.CreatesChallenge?
    ensures Perform(store, Operation([user, challenge], throws))
         == if Rejects(store, user) then Performed(store, true) else Performed(Do(Do(store, user), challenge), throws)
  {
    assert [user, challenge][1..] == [challenge] && [challenge][1..] == [];
    if !Rejects(store, user) {
      var next := Do(store, user);
      assert Perform(next, Operation([challenge], throws)) == Perform(Do(next, challenge), Operation([], throws));
    }
  }

  // ---- What every run keeps ----

  ghost predicate Drawn(userId: string, sequence: nat) { exists n: nat :: n <= sequence && userId == UserIdOf(n) }

  ghost predicate IdsDrawn(store: Store) { forall i :: i in store.byId ==> Drawn(i, store.sequence) }

  predicate PasswordsOwned(store: Store) { store.passwords.Keys <= store.byId.Keys }

  ghost predicate Views(store: Store) { TwoViews(store) && IdsDrawn(store) }

  ghost predicate Sound(store: Store) { Views(store) && PasswordsOwned(store) }

  lemma NextIsNew(store: Store)
    requires IdsDrawn(store)
    ensures UserIdOf(store.sequence + 1) !in store.byId
  {
    var next := UserIdOf(store.sequence + 1);
    if next in store.byId {
      var n: nat :| n <= store.sequence && next == UserIdOf(n);
      UserIdInjective(n, store.sequence + 1);
    }
  }

  lemma DrawnStays(userId: string, sequence: nat)
    requires Drawn(userId, sequence)
    ensures Drawn(userId, sequence + 1)
  {
    var n: nat :| n <= sequence && userId == UserIdOf(n);
    assert n <= sequence + 1;
  }

  lemma CreateNextKeepsViews(store: Store, user: NewUser)
    requires Views(store) && user.userId == UserIdOf(store.sequence + 1)
    ensures Views(CreateUser(store.(sequence := store.sequence + 1), user))
    ensures Views(store.(sequence := store.sequence + 1))
  {
    NextIsNew(store);
    CreateKeepsTwoViews(store, user);
    var drawn := store.(sequence := store.sequence + 1);
    forall i | i in store.byId ensures Drawn(i, store.sequence + 1) {
      DrawnStays(i, store.sequence);
    }
    assert Drawn(user.userId, store.sequence + 1);
    assert CreateUser(drawn, user).byEmail == CreateUser(store, user).byEmail
           && CreateUser(drawn, user).byId == CreateUser(store, user).byId;
  }

  /** The creation is rejected, or its id was drawn and is not in use. */
  ghost predicate MayCreate(store: Store, user: NewUser) {
    user.normalizedEmail in store.byEmail || (user.userId !in store.byId && Drawn(user.userId, store.sequence))
  }

  lemma CreateDrawnKeepsViews(store: Store, user: NewUser)
    requires Views(store) && MayCreate(store, user)
    ensures Views(CreateUser(store, user))
  {
    CreateKeepsTwoViews(store, user);
  }

  lemma DrawKeepsViews(store: Store)
    requires Views(store)
    ensures Views(store.(sequence := store.sequence + 1))
  {
    forall i | i in store.byId ensures Drawn(i, store.sequence + 1) {
      DrawnStays(i, store.sequence);
    }
  }

  lemma ServeKeepsViews(store: Store, request: Request)
    requires Views(store)
    ensures Views(Serve(store, request)) && (PasswordsOwned(store) ==> PasswordsOwned(Serve(store, request)))
  {
    if request.Registers? {
      RegistrationLeaves(store, request.profile, request.reach, request.throws);
      CreateNextKeepsViews(store, UserOf(UserIdOf(store.sequence + 1), request.profile));
    }
  }

  lemma ServeKeepsSound(store: Store, request: Request)
    ensures Sound(store) ==> Sound(Serve(store, request))
  {
    if Sound(store) {
      ServeKeepsViews(store, request);
    }
  }

  /** Over any run, some registrations throwing part-way: two views of one set of users, ids drawn once. */
  lemma {:induction false} RunKeepsSound(store: Store, requests: seq<Request>)
    requires Sound(store)
    ensures Sound(Run(store, requests))
    decreases |requests|
  {
    if requests == [] {
    } else {
      ServeKeepsViews(store, requests[0]);
      RunKeepsSound(Serve(store, requests[0]), requests[1..]);
    }
  }

  /** Both lookups of a password, by address and by id, see the same one. */
  predicate LookupsAgree(store: Store, email: string, userId: string) {
    var found := FindAuth(store, email);
    && (found.Some? ==> found.value.normalizedEmail == email
                        && FindPasswordHash(store, found.value.userId) == Some(found.value.passwordHash))
    && (userId in store.byId <==> FindPasswordHash(store, userId).Some?)
    && (userId in store.byId ==>
          var auth := FindAuth(store, store.byId[userId].normalizedEmail);
          auth.Some? && auth.value.userId == userId && FindPasswordHash(store, userId) == Some(auth.value.passwordHash))
  }

  lemma BothLookupsAgree(requests: seq<Request>, email: string, userId: string)
    ensures LookupsAgree(Run(EMPTY, requests), email, userId)
  {
    RunKeepsSound(EMPTY, requests);
  }

  // ---- Passwords ----

  /** The last hash set for the user, if any. */
  function LastSet(requests: seq<Request>, userId: string, current: string): string {
    if requests == [] then current
    else if requests[0].ReplacesPassword? && requests[0].userId == userId
        then LastSet(requests[1..], userId, requests[0].hash)
    else LastSet(requests[1..], userId, current)
  }

  lemma ServeKeepsUser(store: Store, request: Request, userId: string)
    requires Sound(store) && userId in store.byId
    ensures var later := Serve(store, request);
            userId in later.byId && later.byId[userId] == store.byId[userId]
            && FindPasswordHash(later, userId) ==
                 if request.ReplacesPassword? && request.userId == userId then Some(request.hash)
                     else FindPasswordHash(store, userId)
  {
    if request.Registers? {
      RegistrationLeaves(store, request.profile, request.reach, request.throws);
      NextIsNew(store);
    }
  }

  /**
   * Whatever happens in between, failed registrations included: a user stays as registered, and its
   * password is the one set last.
   */
  lemma {:induction false} PasswordIsTheLastOneSet(store: Store, requests: seq<Request>, userId: string)
    requires Sound(store) && userId in store.byId
    ensures var later := Run(store, requests);
            userId in later.byId && later.byId[userId] == store.byId[userId]
            && FindPasswordHash(later, userId) == Some(LastSet(requests, userId, FindPasswordHash(store, userId).value))
    decreases |requests|
  {
    if requests == [] {
    } else {
      ServeKeepsUser(store, requests[0], userId);
      ServeKeepsViews(store, requests[0]);
      PasswordIsTheLastOneSet(Serve(store, requests[0]), requests[1..], userId);
    }
  }

  /** The first verification wins: its moment never changes. */
  lemma {:induction false} FirstVerificationStays(store: Store, requests: seq<Request>, userId: string)
    requires userId in store.verifiedAt
    ensures var later := Run(store, requests);
            userId in later.verifiedAt && later.verifiedAt[userId] == store.verifiedAt[userId]
    decreases |requests|
  {
    if requests == [] {
    } else {
      if requests[0].Registers? {
        RegistrationLeaves(store, requests[0].profile, requests[0].reach, requests[0].throws);
      }
      FirstVerificationStays(Serve(store, requests[0]), requests[1..], userId);
    }
  }

  // ---- Challenges without a user ----

  predicate AllOf(rows: ChallengeTable, users: set<string>) {
    forall k :: 0 <= k < |rows| ==> rows[k].value.userId in users
  }

  predicate NoOrphans(store: Store) { AllOf(store.challengeRows, store.byId.Keys) }

  ghost predicate RowsDrawn(store: Store) {
    forall k :: 0 <= k < |store.challengeRows| ==> Drawn(store.challengeRows[k].value.userId, store.sequence)
  }

  /** Challenge ids are not used twice, and outside registration only existing users get challenges. */
  predicate Orderly(store: Store, request: Request) {
    match request
    case Registers(p, _, _) => !Has(store.challengeRows, p.challengeId)
    case Challenged(op) => op.Creates? ==> !Has(store.challengeRows, op.id) && op.userId in store.byId
    case _ => true
  }

  predicate OrderlyRun(store: Store, requests: seq<Request>)
    decreases |requests|
  {
    requests == [] || (Orderly(store, requests[0]) && OrderlyRun(Serve(store, requests[0]), requests[1..]))
  }

  /** The registration throws when its challenge has been created. */
  predicate ThrowsLate(store: Store, request: Request) {
    request.Registers? && request.throws && request.reach >= 2 && !Taken(store, request.profile)
  }

  predicate OneThrowsLate(store: Store, requests: seq<Request>)
    decreases |requests|
  {
    requests != [] && (ThrowsLate(store, requests[0]) || OneThrowsLate(Serve(store, requests[0]), requests[1..]))
  }

  lemma AddedRow(rows: ChallengeTable, c: NewChallenge)
    requires !Has(rows, c.challengeId)
    ensures var later :=
            Lifecycle.Create(rows, c.challengeId, c.userId, c.createdAt, c.expiresAt, Data(c.tokenDigest, None, None));
            |later| == |rows| + 1 && later[|rows|].value.userId == c.userId
            && forall k :: 0 <= k < |rows| ==> later[k] == rows[k]
  {}

  /** An id drawn earlier is not the next one. */
  lemma DrawnIsNotNext(userId: string, sequence: nat)
    requires Drawn(userId, sequence)
    ensures userId != UserIdOf(sequence + 1)
  {
    var n: nat :| n <= sequence && userId == UserIdOf(n);
    if userId == UserIdOf(sequence + 1) {
      UserIdInjective(n, sequence + 1);
    }
  }

  lemma NoRowIsNext(store: Store)
    requires RowsDrawn(store)
    ensures RowsDrawn(store.(sequence := store.sequence + 1))
    ensures forall k :: 0 <= k < |store.challengeRows| ==>
              store.challengeRows[k].value.userId != UserIdOf(store.sequence + 1)
  {
    forall k | 0 <= k < |store.challengeRows|
      ensures Drawn(store.challengeRows[k].value.userId, store.sequence + 1)
      ensures store.challengeRows[k].value.userId != UserIdOf(store.sequence + 1)
    {
      DrawnStays(store.challengeRows[k].value.userId, store.sequence);
      DrawnIsNotNext(store.challengeRows[k].value.userId, store.sequence);
    }
  }

  lemma RegisteringOrphans(store: Store, p: Profile, reach: nat, throws: bool)
    requires Sound(store) && RowsDrawn(store) && !Has(store.challengeRows, p.challengeId)
    ensures var later := Serve(store, Registers(p, reach, throws));
            RowsDrawn(later) && (NoOrphans(later) <==>
                NoOrphans(store) && !ThrowsLate(store, Registers(p, reach, throws)))
  {
    var later, rows := Serve(store, Registers(p, reach, throws)), store.challengeRows;
    var userId := UserIdOf(store.sequence + 1);
    RegistrationLeaves(store, p, reach, throws);
    NextIsNew(store);
    NoRowIsNext(store);
    assert Drawn(userId, store.sequence + 1);
    var added := if |later.challengeRows| == |rows| then [] else [later.challengeRows[|rows|]];
    assert later.challengeRows == rows + added;
    MoreRows(rows, added, store.byId.Keys, userId);
  }

  /** One more row, one more user, or both. */
  lemma MoreRows(rows: ChallengeTable, added: ChallengeTable, users: set<string>, userId: string)
    requires |added| <= 1 && (forall k :: 0 <= k < |added| ==> added[k].value.userId == userId)
    requires userId !in users && forall k :: 0 <= k < |rows| ==> rows[k].value.userId != userId
    ensures AllOf(rows + added, users) <==> AllOf(rows, users) && added == []
    ensures AllOf(rows + added, users + {userId}) <==> AllOf(rows, users)
  {
    if AllOf(rows + added, users) || AllOf(rows + added, users + {userId}) {
      forall k | 0 <= k < |rows| ensures rows[k].value.userId in users {
        assert (rows + added)[k] == rows[k];
      }
      assert added != [] ==> (rows + added)[|rows|] == added[0];
    }
  }

  lemma ChallengingOrphans(store: Store, op: Lifecycle.Op<Data>)
    requires Sound(store) && RowsDrawn(store) && Orderly(store, Challenged(op))
    ensures var later := Serve(store, Challenged(op));
            RowsDrawn(later) && (NoOrphans(later) <==> NoOrphans(store))
  {
    var later, rows := Serve(store, Challenged(op)), store.challengeRows;
    Lifecycle.ApplyAdvances(rows, op);
    assert |later.challengeRows| == |rows| + if op.Creates? then 1 else 0;
    assert op.Creates? ==> later.challengeRows[|rows|].value.userId == op.userId;
    forall k | 0 <= k < |rows| ensures later.challengeRows[k].value.userId == rows[k].value.userId {
      assert Lifecycle.Advanced(rows[k], later.challengeRows[k]);
    }
    if k :| 0 <= k < |rows| && rows[k].value.userId !in store.byId {
      assert later.challengeRows[k].value.userId !in later.byId;
    }
  }

  /**
   * Both or neither, over any run: a challenge row without a user exists exactly if a registration
   * has thrown after creating its challenge, because the commit does not put the rows back. Such a
   * row stays.
   */
  lemma {:induction false} OrphansExactlyAfterLateThrow(store: Store, requests: seq<Request>)
    requires Sound(store) && RowsDrawn(store) && OrderlyRun(store, requests)
    ensures NoOrphans(Run(store, requests)) <==> NoOrphans(store) && !OneThrowsLate(store, requests)
    decreases |requests|
  {
    if requests == [] {
    } else {
      var request := requests[0];
      match request {
        case Registers(p, reach, throws) => RegisteringOrphans(store, p, reach, throws);
        case Challenged(op) => ChallengingOrphans(store, op);
        case _ =>
      }
      ServeKeepsViews(store, request);
      OrphansExactlyAfterLateThrow(Serve(store, request), requests[1..]);
    }
  }

  // ---- Commits that overlap ----

  /**
   * A commit that fails puts the indexes back to its own snapshot. A user whose registration was
   * completed in between is lost, and the challenge of that user stays.
   */
  lemma OverlappingCommitLosesUser(store: Store, p: Profile)
    requires Sound(store) && !Taken(store, p) && !Has(store.challengeRows, p.challengeId)
    ensures var userId := UserIdOf(store.sequence + 1);
            var between := Serve(store, Registers(p, 2, false));
            var later := Rollback(between, store);
            userId in between.byId && FindAuth(between, p.normalizedEmail).Some?
            && userId !in later.byId && FindAuth(later, p.normalizedEmail).None? && !NoOrphans(later)
  {
    var userId := UserIdOf(store.sequence + 1);
    RegistrationLeaves(store, p, 2, false);
    NextIsNew(store);
    AddedRow(store.challengeRows, ChallengeOf(userId, p));
    var later := Rollback(Serve(store, Registers(p, 2, false)), store);
    assert later.challengeRows[|store.challengeRows|].value.userId == userId;
  }
}
