/**
 * Commits that overlap with each other and with other requests. Each takes its snapshot when it
 * begins, its calls are interleaved with whatever else happens, and when it fails it puts its
 * snapshot back.
 */
module Overlap {
  import opened Text
  import opened Rows
  import Lifecycle
  import opened Challenges
  import opened Registration

  /** The store, and for each commit under way the store it began with. */
  datatype World = World(store: Store, open: map<nat, Store>)

  const START := World(EMPTY, map[])

  datatype Event =
    | Draws
    | Opens(commit: nat)
    | Calls(call: Call)
    | Fails(commit: nat)
    | Succeeds(commit: nat)
    | Serves(request: Request)

  function Step(w: World, e: Event): World {
    match e
    case Draws => w.(store := w.store.(sequence := w.store.sequence + 1))
    case Opens(k) => w.(open := w.open[k := w.store])
    case Calls(call) => w.(store := Do(w.store, call))
    case Fails(k) => if k in w.open then World(Rollback(w.store, w.open[k]), w.open - {k}) else w
    case Succeeds(k) => w.(open := w.open - {k})
    case Serves(request) => w.(store := Serve(w.store, request))
  }

  function Run(w: World, events: seq<Event>): World
    decreases |events|
  {
    if events == [] then w else Run(Step(w, events[0]), events[1..])
  }

  /** A user is created under an id that was drawn and is not in use, or else rejected. */
  ghost predicate Proper(w: World, e: Event) { e.Calls? && e.call.CreatesUser? ==> MayCreate(w.store, e.call.user) }

  ghost predicate ProperRun(w: World, events: seq<Event>)
    decreases |events|
  {
    events == [] || (Proper(w, events[0]) && ProperRun(Step(w, events[0]), events[1..]))
  }

  lemma {:induction false} RunOneMore(w: World, events: seq<Event>, e: Event)
    ensures Run(w, events + [e]) == Step(Run(w, events), e)
    ensures ProperRun(w, events + [e]) <==> ProperRun(w, events) && Proper(Run(w, events), e)
    decreases |events|
  {
    if events == [] {
      NothingAdded([e]);
      RestOfCons(e, []);
    } else {
      RestOfConcat(events, [e]);
      RunOneMore(Step(w, events[0]), events[1..], e);
    }
  }

  // ---- What each event changes ----

  /** Drawing takes the next number; beginning and succeeding write nothing to the store. */
  lemma QuietEvents(w: World, k: nat)
    ensures var drawn := Step(w, Draws);
            drawn.open == w.open && drawn.store.sequence == w.store.sequence + 1
            && drawn.store.(sequence := w.store.sequence) == w.store
    ensures var begun := Step(w, Opens(k)); begun.store == w.store && begun.open == w.open[k := w.store]
    ensures var done := Step(w, Succeeds(k)); done.store == w.store && done.open == w.open - {k}
  {}

  /** A failing commit puts back the users and the length of the list it began with, and nothing else. */
  lemma FailureWrites(w: World, k: nat)
    requires k in w.open
    ensures var before, now, later := w.open[k], w.store, Step(w, Fails(k)).store;
            && later.byEmail == before.byEmail && later.byId == before.byId
            && |later.challenges| == |before.challenges|
            && (forall i :: 0 <= i < |later.challenges| ==>
                  later.challenges[i] == if i < |now.challenges| then now.challenges[i] else None)
            && later.(byEmail := now.byEmail, byId := now.byId, challenges := now.challenges) == now
    ensures Step(w, Fails(k)).open == w.open - {k}
  {}

  /** A call that creates a user writes both indexes, unless the address is taken. */
  lemma CreationWrites(w: World, user: NewUser, caught: bool)
    ensures var now, later := w.store, Step(w, Calls(CreatesUser(user, caught)));
            && later.open == w.open
            && later.store == if user.normalizedEmail in now.byEmail then now
                              else now.(byEmail := now.byEmail[user.normalizedEmail := user],
                                        byId := now.byId[user.userId := user])
  {}

  /** A call that creates a challenge adds it to the list and, if its id is new, to the rows. */
  lemma ChallengeWrites(w: World, c: NewChallenge)
    requires forall k :: 0 <= k < |w.store.challengeRows| ==> w.store.challengeRows[k].id != c.challengeId
    ensures var now, later := w.store, Step(w, Calls(CreatesChallenge(c)));
            var life := Lifecycle.Life(c.userId, c.createdAt, c.expiresAt, None, None, Data(c.tokenDigest, None, None));
            && later.open == w.open
            && later.store == now.(challenges := now.challenges + [Some(c)],
                                   challengeRows := now.challengeRows + [Entry(c.challengeId, life)])
  {}

  // ---- Two views, whatever overlaps ----

  ghost predicate DrawnUpTo(byId: map<string, NewUser>, sequence: nat) { forall i :: i in byId ==> Drawn(i, sequence) }

  ghost predicate Snapshot(before: Store, sequence: nat) { TwoViews(before) && DrawnUpTo(before.byId, sequence) }

  ghost predicate Consistent(w: World) {
    Views(w.store) && forall k :: k in w.open ==> Snapshot(w.open[k], w.store.sequence)
  }

  lemma SequenceGrows(w: World, e: Event)
    ensures w.store.sequence <= Step(w, e).store.sequence <= w.store.sequence + 1
  {
    if e.Serves? && e.request.Registers? {
      RegistrationLeaves(w.store, e.request.profile, e.request.reach, e.request.throws);
    }
  }

  lemma SnapshotStays(before: Store, sequence: nat, later: nat)
    requires Snapshot(before, sequence) && sequence <= later <= sequence + 1
    ensures Snapshot(before, later)
  {
    forall i | i in before.byId ensures Drawn(i, later) {
      DrawnStays(i, sequence);
    }
  }

  lemma StepKeepsViews(w: World, e: Event)
    requires Consistent(w) && Proper(w, e)
    ensures Views(Step(w, e).store)
  {
    match e
    case Draws => DrawKeepsViews(w.store);
    case Opens(_) =>
    case Calls(call) => if call.CreatesUser? { CreateDrawnKeepsViews(w.store, call.user); }
    case Fails(k) => if k in w.open { assert Snapshot(w.open[k], w.store.sequence); }
    case Succeeds(_) =>
    case Serves(request) => ServeKeepsViews(w.store, request);
  }

  lemma StepKeepsConsistent(w: World, e: Event)
    requires Consistent(w) && Proper(w, e)
    ensures Consistent(Step(w, e))
  {
    var later := Step(w, e);
    StepKeepsViews(w, e);
    SequenceGrows(w, e);
    forall k | k in later.open ensures Snapshot(later.open[k], later.store.sequence) {
      if later.open[k] == w.store {
        assert Snapshot(w.store, w.store.sequence);
      }
      SnapshotStays(later.open[k], w.store.sequence, later.store.sequence);
    }
  }

  /**
   * However any number of commits overlap, with each other and with other requests, and whichever of
   * them fail: the two indexes stay two views of one set of users.
   */
  lemma {:induction false} TwoViewsWhateverOverlaps(w: World, events: seq<Event>)
    requires Consistent(w) && ProperRun(w, events)
    ensures Consistent(Run(w, events))
    decreases |events|
  {
    if events == [] {
    } else {
      StepKeepsConsistent(w, events[0]);
      TwoViewsWhateverOverlaps(Step(w, events[0]), events[1..]);
    }
  }

  // ---- What an overlap can break ----

  ghost predicate LookupsAgreeEverywhere(store: Store) { forall email, userId :: LookupsAgree(store, email, userId) }

  /** With the indexes intact, the two password lookups agree exactly if every password has its user. */
  lemma LookupsAgreeExactlyIfOwned(store: Store)
    requires TwoViews(store)
    ensures LookupsAgreeEverywhere(store) <==> PasswordsOwned(store)
  {
    if LookupsAgreeEverywhere(store) {
      forall u | u in store.passwords ensures u in store.byId {
        assert LookupsAgree(store, "", u);
      }
    }
  }

  predicate NoHoles(list: seq<Option<NewChallenge>>) { forall i :: 0 <= i < |list| ==> list[i].Some? }

  /** Every password has its user, and the list of challenges holds challenges only. */
  predicate Intact(store: Store) { PasswordsOwned(store) && NoHoles(store.challenges) }

  /** The failing commit knows every user that has a password, and the list is not shorter than it was. */
  predicate Harmless(w: World, e: Event) {
    e.Fails? && e.commit in w.open ==>
      w.store.passwords.Keys <= w.open[e.commit].byId.Keys && |w.open[e.commit].challenges| <= |w.store.challenges|
  }

  predicate HarmlessRun(w: World, events: seq<Event>)
    decreases |events|
  {
    events == [] || (Harmless(w, events[0]) && HarmlessRun(Step(w, events[0]), events[1..]))
  }

  predicate IntactThroughout(w: World, events: seq<Event>)
    decreases |events|
  {
    Intact(w.store) && (events != [] ==> IntactThroughout(Step(w, events[0]), events[1..]))
  }

  lemma HolesExactlyIfShorter(list: seq<Option<NewChallenge>>, n: nat)
    requires NoHoles(list)
    ensures NoHoles(SetLength(list, n)) <==> n <= |list|
  {
    if n > |list| {
      assert SetLength(list, n)[|list|].None?;
    }
  }

  lemma IntactStep(w: World, e: Event)
    requires Consistent(w) && Intact(w.store)
    ensures Intact(Step(w, e).store) <==> Harmless(w, e)
  {
    match e
    case Draws =>
    case Opens(_) =>
    case Calls(_) =>
    case Fails(k) => if k in w.open { HolesExactlyIfShorter(w.store.challenges, |w.open[k].challenges|); }
    case Succeeds(_) =>
    case Serves(request) => ServeKeepsIntact(w.store, request);
  }

  lemma ServeKeepsIntact(store: Store, request: Request)
    requires Views(store) && Intact(store)
    ensures Intact(Serve(store, request))
  {
    ServeKeepsViews(store, request);
    if request.Registers? {
      RegistrationLeaves(store, request.profile, request.reach, request.throws);
    }
  }

  /**
   * Over any interleaving: the lookups agree and the list has no holes, throughout, exactly if no
   * failing commit meets a password whose user it does not know, or a list shorter than its own.
   */
  lemma {:induction false} IntactExactlyIfHarmless(w: World, events: seq<Event>)
    requires Consistent(w) && Intact(w.store) && ProperRun(w, events)
    ensures IntactThroughout(w, events) <==> HarmlessRun(w, events)
    decreases |events|
  {
    if events == [] {
    } else {
      IntactStep(w, events[0]);
      StepKeepsConsistent(w, events[0]);
      if Harmless(w, events[0]) {
        IntactExactlyIfHarmless(Step(w, events[0]), events[1..]);
      }
    }
  }

  // ---- What happens between failures ----

  /** No commit fails. */
  predicate Quiet(events: seq<Event>) { forall i :: 0 <= i < |events| ==> !events[i].Fails? }

  /** The commit is neither begun again nor ended. */
  predicate LeavesOpen(events: seq<Event>, k: nat) {
    forall i :: 0 <= i < |events| ==> events[i] != Opens(k) && events[i] != Fails(k) && events[i] != Succeeds(k)
  }

  lemma {:induction false} StaysOpen(w: World, events: seq<Event>, k: nat)
    requires k in w.open && LeavesOpen(events, k)
    ensures k in Run(w, events).open && Run(w, events).open[k] == w.open[k]
    decreases |events|
  {
    if events == [] {
    } else {
      assert events[0] != Opens(k) && events[0] != Fails(k) && events[0] != Succeeds(k);
      StaysOpen(Step(w, events[0]), events[1..], k);
    }
  }

  /** The user that an event creates, if any. */
  function Created(store: Store, e: Event): set<string> {
    match e
    case Calls(CreatesUser(user, _)) => if user.normalizedEmail in store.byEmail then {} else {user.userId}
    case Serves(Registers(p, _, throws)) => if throws || Taken(store, p) then {} else {UserIdOf(store.sequence + 1)}
    case _ => {}
  }

  /** The user whose password an event replaces, if any. */
  function Replaced(store: Store, e: Event): set<string> {
    match e
    case Serves(ReplacesPassword(userId, _)) => if userId in store.byId then {userId} else {}
    case _ => {}
  }

  /** How many challenges an event adds to the list. */
  function Added(store: Store, e: Event): nat {
    match e
    case Calls(CreatesChallenge(_)) => 1
    case Serves(Registers(p, _, throws)) => if throws || Taken(store, p) then 0 else 1
    case _ => 0
  }

  function CreatedBy(w: World, events: seq<Event>): set<string>
    decreases |events|
  {
    if events == [] then {} else Created(w.store, events[0]) + CreatedBy(Step(w, events[0]), events[1..])
  }

  function ReplacedBy(w: World, events: seq<Event>): set<string>
    decreases |events|
  {
    if events == [] then {} else Replaced(w.store, events[0]) + ReplacedBy(Step(w, events[0]), events[1..])
  }

  function AddedBy(w: World, events: seq<Event>): nat
    decreases |events|
  {
    if events == [] then 0 else Added(w.store, events[0]) + AddedBy(Step(w, events[0]), events[1..])
  }

  /** What has come to a store: users, passwords that were replaced, and challenges in the list. */
  datatype Growth = Growth(created: set<string>, replaced: set<string>, added: nat)

  function GrowthBy(w: World, events: seq<Event>): Growth {
    Growth(CreatedBy(w, events), ReplacedBy(w, events), AddedBy(w, events))
  }

  /** `later` has exactly this more, all other users as they were, and passwords of its own users. */
  predicate Grown(store: Store, later: Store, g: Growth) {
    && later.byId.Keys == store.byId.Keys + g.created && g.created !! store.byId.Keys
    && (forall u :: u in store.byId ==> later.byId[u] == store.byId[u])
    && later.passwords.Keys == store.passwords.Keys + g.replaced && g.replaced <= later.byId.Keys
    && |later.challenges| == |store.challenges| + g.added
    && (NoHoles(store.challenges) ==> NoHoles(later.challenges))
  }

  lemma CallGrows(store: Store, call: Call)
    requires call.CreatesUser? ==> MayCreate(store, call.user)
    ensures Grown(store, Do(store, call), Growth(Created(store, Calls(call)), {}, Added(store, Calls(call))))
  {}

  lemma RegistrationGrows(store: Store, p: Profile, reach: nat, throws: bool)
    requires Views(store)
    ensures var e := Serves(Registers(p, reach, throws));
            Grown(store, Serve(store, e.request), Growth(Created(store, e), {}, Added(store, e)))
  {
    RegistrationLeaves(store, p, reach, throws);
    NextIsNew(store);
  }

  lemma EventGrows(w: World, e: Event)
    requires Views(w.store) && Proper(w, e) && !e.Fails?
    ensures Grown(w.store, Step(w, e).store, Growth(Created(w.store, e), Replaced(w.store, e), Added(w.store, e)))
  {
    match e
    case Draws =>
    case Opens(_) =>
    case Calls(call) => CallGrows(w.store, call);
    case Succeeds(_) =>
    case Serves(Registers(p, reach, throws)) => RegistrationGrows(w.store, p, reach, throws);
    case Serves(_) =>
  }

  lemma GrownTwice(a: Store, b: Store, c: Store, g: Growth, h: Growth)
    requires Grown(a, b, g) && Grown(b, c, h)
    ensures Grown(a, c, Growth(g.created + h.created, g.replaced + h.replaced, g.added + h.added))
  {}

  lemma {:induction false} RunGrows(w: World, events: seq<Event>)
    requires Consistent(w) && Quiet(events) && ProperRun(w, events)
    ensures Grown(w.store, Run(w, events).store, GrowthBy(w, events))
    decreases |events|
  {
    if events == [] {
    } else {
      var e, next := events[0], Step(w, events[0]);
      EventGrows(w, e);
      StepKeepsConsistent(w, e);
      RunGrows(next, events[1..]);
      GrownTwice(w.store, next.store, Run(next, events[1..]).store,
                 Growth(Created(w.store, e), Replaced(w.store, e), Added(w.store, e)), GrowthBy(next, events[1..]));
    }
  }

  /** No failure takes a password away. */
  lemma {:induction false} PasswordsAddUp(w: World, events: seq<Event>)
    ensures Run(w, events).store.passwords.Keys == w.store.passwords.Keys + ReplacedBy(w, events)
    decreases |events|
  {
    if events == [] {
    } else {
      var e := events[0];
      if e.Serves? && e.request.Registers? {
        RegistrationLeaves(w.store, e.request.profile, e.request.reach, e.request.throws);
      }
      assert Step(w, e).store.passwords.Keys == w.store.passwords.Keys + Replaced(w.store, e);
      PasswordsAddUp(Step(w, e), events[1..]);
    }
  }

  /**
   * Whatever happens before a commit begins and until it fails, other failures included: its failure
   * is harmless exactly if every password that was replaced in the whole run is that of a user who
   * was there when it began, and the list of challenges has not become shorter since.
   */
  lemma HarmlessInEvents(w: World, a: seq<Event>, k: nat, b: seq<Event>)
    requires LeavesOpen(b, k)
    ensures var begun := Step(Run(w, a), Opens(k));
            var between := Run(begun, b);
            Harmless(between, Fails(k)) <==>
              w.store.passwords.Keys + ReplacedBy(w, a) + ReplacedBy(begun, b) <= begun.store.byId.Keys
              && |begun.store.challenges| <= |between.store.challenges|
  {
    var begun := Step(Run(w, a), Opens(k));
    PasswordsAddUp(w, a);
    PasswordsAddUp(begun, b);
    StaysOpen(begun, b, k);
  }

  // ---- One commit that fails ----

  /**
   * A commit fails, and no other one has failed since it began; whatever else has happened, its own
   * calls and other commits included. The indexes are again those of its snapshot; lost are exactly
   * the users created since, by itself or by others; and the failure is harmless, and the password
   * lookups still agree, exactly if none of those has had its password replaced.
   */
  lemma FailedCommitLosesExactly(w: World, k: nat, events: seq<Event>)
    requires Consistent(w) && PasswordsOwned(w.store) && Quiet(events) && LeavesOpen(events, k)
    requires ProperRun(Step(w, Opens(k)), events)
    ensures var begun := Step(w, Opens(k));
            var between := Run(begun, events);
            var later := Step(between, Fails(k)).store;
            var created, replaced := CreatedBy(begun, events), ReplacedBy(begun, events);
            && later.byId == w.store.byId && later.byEmail == w.store.byEmail
            && between.store.byId.Keys - later.byId.Keys == created
            && (LookupsAgreeEverywhere(later) <==> created !! replaced)
            && (Harmless(between, Fails(k)) <==> created !! replaced)
            && forall u :: u in created * replaced ==> FindPasswordHash(later, u).Some?
  {
    var begun := Step(w, Opens(k));
    StepKeepsConsistent(w, Opens(k));
    RunGrows(begun, events);
    StaysOpen(begun, events, k);
    var between := Run(begun, events);
    TwoViewsWhateverOverlaps(begun, events);
    StepKeepsConsistent(between, Fails(k));
    LookupsAgreeExactlyIfOwned(Step(between, Fails(k)).store);
    OwnedExactly(w.store, between.store, GrowthBy(begun, events));
  }

  lemma OwnedExactly(store: Store, between: Store, g: Growth)
    requires PasswordsOwned(store) && Grown(store, between, g)
    ensures PasswordsOwned(Rollback(between, store)) <==> g.created !! g.replaced
    ensures between.passwords.Keys <= store.byId.Keys <==> g.created !! g.replaced
    ensures between.byId.Keys - store.byId.Keys == g.created
    ensures forall u :: u in g.created * g.replaced ==> u in between.passwords
  {
    if PasswordsOwned(Rollback(between, store)) {
      assert g.replaced <= store.byId.Keys;
    }
  }

  // ---- Any number of commits that fail ----

  /**
   * After any run, whatever has failed in it: the last failure decides. From then on the users are
   * those of its snapshot and those created since; the passwords are all those ever replaced; and the
   * lookups agree exactly if each of these has one of those users.
   */
  lemma LastFailureDecides(w: World, a: seq<Event>, k: nat, b: seq<Event>)
    requires Consistent(w) && ProperRun(w, a) && k in Run(w, a).open
    requires Quiet(b) && ProperRun(Step(Run(w, a), Fails(k)), b)
    ensures var snapshot := Run(w, a).open[k];
            var failed := Step(Run(w, a), Fails(k));
            var later := Run(failed, b).store;
            var users := snapshot.byId.Keys + CreatedBy(failed, b);
            && later.byId.Keys == users && snapshot.byId.Keys !! CreatedBy(failed, b)
            && (forall u :: u in snapshot.byId ==> later.byId[u] == snapshot.byId[u])
            && (LookupsAgreeEverywhere(later) <==>
                w.store.passwords.Keys + ReplacedBy(w, a) + ReplacedBy(failed, b) <= users)
  {
    TwoViewsWhateverOverlaps(w, a);
    var failed := Step(Run(w, a), Fails(k));
    StepKeepsConsistent(Run(w, a), Fails(k));
    RunGrows(failed, b);
    TwoViewsWhateverOverlaps(failed, b);
    PasswordsAddUp(w, a);
    LookupsAgreeExactlyIfOwned(Run(failed, b).store);
    OwnedIsSubset(Run(failed, b).store);
  }

  lemma OwnedIsSubset(store: Store)
    ensures PasswordsOwned(store) <==> store.passwords.Keys <= store.byId.Keys
  {}

  /** Commit `k` begins, `a` happens, `j` begins, `c` happens, `k` fails, `d` happens. */
  ghost predicate TwoOverlap(w: World, k: nat, a: seq<Event>, j: nat, c: seq<Event>, d: seq<Event>) {
    && j != k && Quiet(a) && Quiet(c) && Quiet(d)
    && LeavesOpen(a, k) && LeavesOpen(c, k) && LeavesOpen(c, j) && LeavesOpen(d, j)
    && ProperRun(First(w, k), a) && ProperRun(Second(w, k, a, j), c) && ProperRun(Third(w, k, a, j, c), d)
  }

  function First(w: World, k: nat): World { Step(w, Opens(k)) }

  function Second(w: World, k: nat, a: seq<Event>, j: nat): World { Step(Run(First(w, k), a), Opens(j)) }

  function Third(w: World, k: nat, a: seq<Event>, j: nat, c: seq<Event>): World {
    Step(Run(Second(w, k, a, j), c), Fails(k))
  }

  /**
   * And then `j` fails too. The users created between the two beginnings, which the first failure had
   * removed, come back; those created after the first failure are lost. The list has a hole exactly
   * if more was added to it between the beginnings than after the first failure.
   */
  lemma SecondFailureBringsBack(w: World, k: nat, a: seq<Event>, j: nat, c: seq<Event>, d: seq<Event>)
    requires Consistent(w) && TwoOverlap(w, k, a, j, c, d)
    ensures var first, second := GrowthBy(First(w, k), a), GrowthBy(Second(w, k, a, j), c);
            var third := GrowthBy(Third(w, k, a, j, c), d);
            var before, middle := Run(Second(w, k, a, j), c).store, Third(w, k, a, j, c).store;
            var after := Run(Third(w, k, a, j, c), d);
            var end := Step(after, Fails(j)).store;
            && middle.byId == w.store.byId && before.byId.Keys - middle.byId.Keys == first.created + second.created
            && end.byId.Keys == w.store.byId.Keys + first.created
            && end.byId.Keys - after.store.byId.Keys == first.created - third.created
            && after.store.byId.Keys - end.byId.Keys == third.created - first.created
            && (NoHoles(w.store.challenges) ==> (NoHoles(end.challenges) <==> first.added <= third.added))
            && (PasswordsOwned(w.store) ==>
                (LookupsAgreeEverywhere(end) <==>
                 first.replaced + second.replaced + third.replaced <= w.store.byId.Keys + first.created))
  {
    var w1, w2, w3 := First(w, k), Second(w, k, a, j), Third(w, k, a, j, c);
    StepKeepsConsistent(w, Opens(k));
    RunGrows(w1, a);
    StaysOpen(w1, a, k);
    TwoViewsWhateverOverlaps(w1, a);
    StepKeepsConsistent(Run(w1, a), Opens(j));
    RunGrows(w2, c);
    StaysOpen(w2, c, k);
    StaysOpen(w2, c, j);
    TwoViewsWhateverOverlaps(w2, c);
    StepKeepsConsistent(Run(w2, c), Fails(k));
    RunGrows(w3, d);
    StaysOpen(w3, d, j);
    TwoViewsWhateverOverlaps(w3, d);
    StepKeepsConsistent(Run(w3, d), Fails(j));
    LookupsAgreeExactlyIfOwned(Step(Run(w3, d), Fails(j)).store);
    TwoRollbacks(w.store, w2.store, Run(w2, c).store, Run(w3, d).store, GrowthBy(w1, a), GrowthBy(w2, c),
        GrowthBy(w3, d));
  }

  lemma TwoRollbacks(s: Store, a: Store, c: Store, d: Store, first: Growth, second: Growth, third: Growth)
    requires Grown(s, a, first) && Grown(a, c, second) && Grown(Rollback(c, s), d, third)
    ensures c.byId.Keys - s.byId.Keys == first.created + second.created
    ensures a.byId.Keys - d.byId.Keys == first.created - third.created
    ensures d.byId.Keys - a.byId.Keys == third.created - first.created
    ensures NoHoles(s.challenges) ==> (NoHoles(Rollback(d, a).challenges) <==> first.added <= third.added)
    ensures PasswordsOwned(s) ==>
              (PasswordsOwned(Rollback(d, a)) <==>
                  first.replaced + second.replaced + third.replaced <= s.byId.Keys + first.created)
  {
    OwnedIsSubset(Rollback(d, a));
    if NoHoles(s.challenges) {
      HolesExactlyIfShorter(d.challenges, |a.challenges|);
    }
  }

  // ---- The history of a store ----

  /** These events have led to this world, and it is sound if they were proper. */
  ghost predicate Follows(events: seq<Event>, w: World) {
    Run(START, events) == w && (ProperRun(START, events) ==> Sound(w.store))
  }

  lemma FollowsStart()
    ensures Follows([], START)
  {}

  lemma QuietKeepsSound(w: World, e: Event)
    requires Sound(w.store) && Proper(w, e) && (e.Draws? || e.Calls? || e.Serves?)
    ensures Sound(Step(w, e).store)
  {
    var alone := World(w.store, map[]);
    StepKeepsViews(alone, e);
    assert Step(alone, e).store == Step(w, e).store;
    if e.Serves? {
      ServeKeepsViews(w.store, e.request);
    }
  }

  lemma FollowsOneMore(events: seq<Event>, w: World, e: Event)
    requires Follows(events, w) && (e.Draws? || e.Calls? || e.Serves?)
    ensures Follows(events + [e], Step(w, e)) && Step(w, e).open == w.open
    ensures ProperRun(START, events + [e]) ==> ProperRun(START, events)
  {
    RunOneMore(START, events, e);
    if ProperRun(START, events + [e]) {
      QuietKeepsSound(w, e);
    }
  }

  lemma FollowsOpening(events: seq<Event>, w: World, k: nat)
    requires Follows(events, w)
    ensures Follows(events + [Opens(k)], World(w.store, w.open[k := w.store]))
    ensures ProperRun(START, events + [Opens(k)]) ==> ProperRun(START, events)
  {
    RunOneMore(START, events, Opens(k));
  }

  lemma FollowsEnd(events: seq<Event>, w: World, k: nat, failed: bool)
    requires Follows(events, w) && k in w.open
    requires ProperRun(START, events) && failed ==> Sound(Rollback(w.store, w.open[k]))
    ensures Follows(events + [if failed then Fails(k) else Succeeds(k)],
                    World(if failed then Rollback(w.store, w.open[k]) else w.store, w.open - {k}))
  {
    RunOneMore(START, events, if failed then Fails(k) else Succeeds(k));
  }

  /** A commit that nothing else came between puts back a sound store. */
  lemma RollbackIsSound(store: Store, op: Operation)
    ensures Sound(store) ==> Sound(Rollback(Perform(store, op).store, store))
    ensures |store.challenges| <= |Perform(store, op).store.challenges|
  {
    PerformOnlyAdds(store, op);
  }

  // ---- Runs in which it happens ----

  /** A user registers and changes the password, and then the commit that began before fails. */
  lemma LostUserKeepsPassword(store: Store, p: Profile, hash: string)
    requires Sound(store) && !Taken(store, p)
    ensures var userId := UserIdOf(store.sequence + 1);
            var between := Registration.Run(store, [Registers(p, 2, false), ReplacesPassword(userId, hash)]);
            var later := Rollback(between, store);
            userId in between.byId && userId !in later.byId && FindPasswordHash(later, userId) == Some(hash)
            && !LookupsAgree(later, p.normalizedEmail, userId)
  {
    var userId := UserIdOf(store.sequence + 1);
    var first, second := Registers(p, 2, false), ReplacesPassword(userId, hash);
    var registered := Serve(store, first);
    RegistrationLeaves(store, p, 2, false);
    NextIsNew(store);
    RestOfCons(first, [second]);
    RestOfCons(second, []);
    assert Registration.Run(registered, [second]) == Registration.Run(Serve(registered, second), []);
    assert Registration.Run(store, [first, second]) == Registration.Run(registered, [second]);
  }

  /**
   * A commit creates a user and fails, and the user is gone. Then a commit fails that began in between,
   * and the user of the failed registration is back.
   */
  lemma FailedUserComesBack(store: Store, user: NewUser, caught: bool)
    requires user.normalizedEmail !in store.byEmail && user.userId !in store.byId
    ensures var w := Step(Step(Step(World(store, map[]), Opens(1)), Calls(CreatesUser(user, caught))), Opens(2));
            var failed := Step(w, Fails(1));
            failed.store.byId == store.byId && Step(failed, Fails(2)).store.byId == store.byId[user.userId := user]
  {}

  /** The second of two commits began when the first had added to the list, and both fail. */
  lemma TwoFailuresLeaveHole(store: Store, c: NewChallenge)
    ensures var w := Step(Step(Step(World(store, map[]), Opens(1)), Calls(CreatesChallenge(c))), Opens(2));
            var later := Step(Step(w, Fails(1)), Fails(2)).store;
            |later.challenges| == |store.challenges| + 1 && later.challenges[|store.challenges|].None?
  {}
}
