/** What each request changes, in the store's fields and as its two lookups see it. */
module RegistrationLookups {
  import opened Text
  import opened Rows
  import Lifecycle
  import opened Challenges
  import opened Registration

  /** The user that a registration creates under an id. */
  predicate RegisteredAs(user: NewUser, id: string, p: Profile) {
    && user.userId == id && user.normalizedEmail == p.normalizedEmail && user.email == p.email
    && user.passwordHash == p.passwordHash && user.displayName == p.displayName
    && user.organization == p.organization && user.intendedUse == p.intendedUse
    && user.termsVersion == p.termsVersion && user.termsAcceptedAt == p.now && user.createdAt == p.now
  }

  /** One more entry, and every other one as it was. */
  ghost predicate Gains<K, V(!new)>(before: map<K, V>, after: map<K, V>, key: K) {
    after.Keys == before.Keys + {key} && forall k :: k in before && k != key ==> after[k] == before[k]
  }

  /** A registration writes the user into both indexes and its challenge into the list and the rows. */
  lemma RegistrationWrites(store: Store, p: Profile, reach: nat)
    requires p.normalizedEmail !in store.byEmail
    requires forall k :: 0 <= k < |store.challengeRows| ==> store.challengeRows[k].id != p.challengeId
    ensures var later, id := Serve(store, Registers(p, reach, false)), "usr_dev_" + Decimal(store.sequence + 1);
            var life := Lifecycle.Life(id, p.now, p.expiresAt, None, None, Data(p.tokenDigest, None, None));
            && later.sequence == store.sequence + 1
            && Gains(store.byEmail, later.byEmail, p.normalizedEmail) && Gains(store.byId, later.byId, id)
            && RegisteredAs(later.byEmail[p.normalizedEmail], id, p) && RegisteredAs(later.byId[id], id, p)
            && later.challenges == store.challenges + [Some(NewChallenge(p.challengeId, id, p.tokenDigest, p.now,
                                                                            p.expiresAt))]
            && later.challengeRows == store.challengeRows + [Entry(p.challengeId, life)]
            && later.passwords == store.passwords && later.verifiedAt == store.verifiedAt
  {
    RegistrationLeaves(store, p, reach, false);
  }

  /** A registration that throws, or whose address is taken, leaves the users, the list and the passwords. */
  lemma FailedRegistrationWrites(store: Store, p: Profile, reach: nat, throws: bool)
    requires throws || p.normalizedEmail in store.byEmail
    ensures var later := Serve(store, Registers(p, reach, throws));
            && later.sequence == store.sequence + 1 && later.byEmail == store.byEmail && later.byId == store.byId
            && later.challenges == store.challenges && later.passwords == store.passwords
            && later.verifiedAt == store.verifiedAt
            && (p.normalizedEmail in store.byEmail || reach < 2 ==> later.challengeRows == store.challengeRows)
  {
    RegistrationLeaves(store, p, reach, throws);
  }

  /** In an empty store nobody is found. */
  lemma NobodyAtFirst(email: string, userId: string)
    ensures FindAuth(EMPTY, email) == None && FindPasswordHash(EMPTY, userId) == None
  {}

  /** A registered user is found by address and by id, with the password given; all others as before. */
  lemma RegistrationIsSeen(store: Store, p: Profile, reach: nat, email: string, userId: string)
    requires Sound(store) && p.normalizedEmail !in store.byEmail
    ensures var later, id := Serve(store, Registers(p, reach, false)), "usr_dev_" + Decimal(store.sequence + 1);
            && (id !in store.verifiedAt ==>
                  FindAuth(later, p.normalizedEmail) == Some(AuthUser(id, p.normalizedEmail, p.passwordHash, None)))
            && FindPasswordHash(later, id) == Some(p.passwordHash)
            && (email != p.normalizedEmail ==> FindAuth(later, email) == FindAuth(store, email))
            && (userId != id ==> FindPasswordHash(later, userId) == FindPasswordHash(store, userId))
  {
    RegistrationLeaves(store, p, reach, false);
    NextIsNew(store);
  }

  /** A failed registration is not seen by either lookup. */
  lemma FailedRegistrationIsNotSeen(store: Store, p: Profile, reach: nat, throws: bool, email: string, userId: string)
    requires throws || p.normalizedEmail in store.byEmail
    ensures var later := Serve(store, Registers(p, reach, throws));
            FindAuth(later, email) == FindAuth(store, email)
            && FindPasswordHash(later, userId) == FindPasswordHash(store, userId)
  {
    FailedRegistrationWrites(store, p, reach, throws);
  }

  /** A changed password is what both lookups see of its user; nobody else is affected, and unknown ids do nothing. */
  lemma PasswordChangeIsSeen(store: Store, userId: string, hash: string, email: string, other: string)
    requires Sound(store)
    ensures var later := Serve(store, ReplacesPassword(userId, hash));
            && (userId !in store.byId ==> later == store)
            && (userId in store.byId ==>
                  FindPasswordHash(later, userId) == Some(hash)
                  && var a := FindAuth(store, store.byId[userId].normalizedEmail);
                     a.Some? && FindAuth(later, store.byId[userId].normalizedEmail)
                                == Some(a.value.(passwordHash := hash)))
            && (other != userId ==> FindPasswordHash(later, other) == FindPasswordHash(store, other))
            && (FindAuth(store, email).Some? && FindAuth(store, email).value.userId != userId ==>
                  FindAuth(later, email) == FindAuth(store, email))
            && (FindAuth(store, email).None? ==> FindAuth(later, email).None?)
            && later.(passwords := store.passwords) == store
  {}

  /** The first verification is what the lookup by address sees of its user; later ones change nothing. */
  lemma VerificationIsSeen(store: Store, userId: string, at: int, email: string)
    ensures var later, found := Serve(store, Verifies(userId, at)), FindAuth(store, email);
            && (found.None? ==> FindAuth(later, email).None?)
            && (found.Some? ==>
                  FindAuth(later, email) ==
                  if found.value.userId == userId && found.value.emailVerifiedAt == None
                    then Some(found.value.(emailVerifiedAt := Some(at))) else found)
            && (userId in store.verifiedAt ==> later == store)
            && later.(verifiedAt := store.verifiedAt) == store
  {}

  /** Everything else that happens to the challenge rows is seen by neither lookup. */
  lemma ChallengesAreNotSeen(store: Store, op: Lifecycle.Op<Data>, email: string, userId: string)
    ensures var later := Serve(store, Challenged(op));
            later.(challengeRows := store.challengeRows) == store
            && later.challengeRows == Lifecycle.Apply(store.challengeRows, op)
            && FindAuth(later, email) == FindAuth(store, email)
            && FindPasswordHash(later, userId) == FindPasswordHash(store, userId)
  {}

  /**
   * In an operation a taken address ends the rest, unless the operation catches the rejection; then the
   * rest goes on with the store as it was.
   */
  lemma RejectionEndsUnlessCaught(store: Store, user: NewUser, caught: bool, rest: seq<Call>, throws: bool)
    requires user.normalizedEmail in store.byEmail
    ensures Perform(store, Operation([CreatesUser(user, caught)] + rest, throws)) ==
            if caught then Perform(store, Operation(rest, throws)) else Performed(store, true)
  {
    RestOfCons(CreatesUser(user, caught), rest);
  }

  /** A commit reports whether its operation failed, and keeps what the operation wrote if it did not. */
  lemma CommitReports(store: Store, op: Operation)
    ensures Commit(store, op).failed <==> Perform(store, op).failed
    ensures !Perform(store, op).failed ==> Commit(store, op).store == Perform(store, op).store
    ensures Perform(store, op).failed ==>
              Commit(store, op).store == store.(challengeRows := Perform(store, op).store.challengeRows)
  {
    if Commit(store, op).failed {
      FailedCommitRestores(store, op);
    }
  }
}
