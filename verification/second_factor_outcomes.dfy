/**
 * How a submission of a second factor ends: what it must have read to authenticate, when it is rejected
 * and why, and that submissions served one after the other never get past the attempt ceiling.
 */
module SecondFactorOutcomes {
  import opened Text
  import opened Rows
  import Factors
  import PendingAuth
  import RecoveryCodes
  import opened SecondFactor

  // ---- What a submission finds, said of the rows ----

  /** The first ceremony with the credential. */
  predicate First(rows: PendingAuth.PendingTable, k: nat, digest: string) {
    k < |rows| && rows[k].value.payload.credentialDigest == digest
    && forall j :: 0 <= j < k ==> rows[j].value.payload.credentialDigest != digest
  }

  predicate Open(row: PendingAuth.Pending) { row.value.consumedAt == None && row.value.closedAt == None }

  /** It can still be completed: open, unexpired, and with an attempt left. */
  predicate Live(row: PendingAuth.Pending, now: int) {
    Open(row) && now < row.value.expiresAt && row.value.payload.failedAttempts < row.value.payload.maxAttempts
  }

  predicate ActiveFactor(row: Entry<Factors.Factor>, userId: string) {
    row.value.userId == userId && row.value.disabledAt == None
  }

  /** The user's first active factor, which is verified and has a secret. */
  predicate ReadyAt(t: Tables, userId: string, f: nat) {
    f < |t.factors| && ActiveFactor(t.factors[f], userId)
    && (forall j :: 0 <= j < f ==> !ActiveFactor(t.factors[j], userId))
    && t.factors[f].value.verifiedAt.Some? && t.factors[f].value.secretCiphertext.Some?
  }

  ghost predicate Ready(t: Tables, userId: string) { exists f: nat :: ReadyAt(t, userId, f) }

  /** What the factor makes of the code. */
  function StepOf(engine: Engine, t: Tables, input: Input, f: nat, account: string): Option<int>
    requires f < |t.factors| && t.factors[f].value.secretCiphertext.Some?
  {
    engine.verify(t.factors[f].value.secretCiphertext.value, input.code, input.now, account)
  }

  ghost predicate NoFactor(engine: Engine, t: Tables, input: Input, userId: string) {
    !Ready(t, userId)
    || (engine.recoveryDigest(input.code) == None && engine.wellFormed(input.code) && engine.labelOf(userId) == None)
  }

  /** Neither a recovery code nor a time-based one that the factor verifies. */
  ghost predicate Wrong(engine: Engine, t: Tables, input: Input, userId: string) {
    && engine.recoveryDigest(input.code) == None
    && exists f: nat :: ReadyAt(t, userId, f)
        && (!engine.wellFormed(input.code)
            || (engine.labelOf(userId).Some? && StepOf(engine, t, input, f, engine.labelOf(userId).value) == None))
  }

  /** What the code is good for: a recovery code by its shape, any other by the time step it verifies for. */
  ghost predicate Offers(engine: Engine, t: Tables, input: Input, userId: string, via: Via) {
    match via
    case ByCode(owner, digest) =>
      owner == userId && Ready(t, userId) && engine.recoveryDigest(input.code) == Some(digest)
    case ByStep(id, timeStep) =>
      && engine.recoveryDigest(input.code) == None && engine.wellFormed(input.code) && engine.labelOf(userId).Some?
      && exists f: nat :: ReadyAt(t, userId, f) && t.factors[f].id == id
          && StepOf(engine, t, input, f, engine.labelOf(userId).value) == Some(timeStep)
  }

  predicate Newer(row: Entry<Factors.Factor>, id: string, timeStep: int) {
    row.id == id && (row.value.lastUsedTimeStep.Some? ==> row.value.lastUsedTimeStep.value < timeStep)
  }

  predicate Unused(code: RecoveryCodes.Code, digest: string) { code.digest == digest && code.consumedAt == None }

  /** The time step is newer than the factor's last one; the recovery code is among the user's unused ones. */
  ghost predicate Won(t: Tables, via: Via) {
    match via
    case ByStep(id, timeStep) => exists f :: 0 <= f < |t.factors| && Newer(t.factors[f], id, timeStep)
    case ByCode(userId, digest) =>
      userId in t.codes && exists c :: 0 <= c < |t.codes[userId]| && Unused(t.codes[userId][c], digest)
  }

  // ---- Each step in these terms ----

  lemma {:induction false} FindCredentialIs(rows: PendingAuth.PendingTable, digest: string, k: nat)
    requires First(rows, k, digest)
    ensures FindCredential(rows, digest) == k
    decreases k
  {
    if k == 0 {
    } else {
      FindCredentialIs(rows[1..], digest, k - 1);
    }
  }

  lemma {:induction false} NoCredential(rows: PendingAuth.PendingTable, digest: string)
    requires forall k :: 0 <= k < |rows| ==> rows[k].value.payload.credentialDigest != digest
    ensures FindCredential(rows, digest) == |rows|
  {
    if rows == [] {
    } else {
      NoCredential(rows[1..], digest);
    }
  }

  lemma ResolvesExactly(t: Tables, input: Input, k: nat)
    requires input.credential.Some? && First(t.pending, k, input.credential.value)
    ensures var row := t.pending[k];
            Resolve(t, input) ==
              if !Open(row) then Ended(Rejected(PendingNotFound))
              else if row.value.expiresAt <= input.now then Ended(Rejected(PendingExpired))
              else if row.value.payload.maxAttempts <= row.value.payload.failedAttempts
                then Ended(Rejected(AttemptsExhausted))
              else Resolved(Ceremony(row.id, row.value.userId))
  {
    FindCredentialIs(t.pending, input.credential.value, k);
  }

  lemma InspectsExactly(engine: Engine, t: Tables, input: Input, c: Ceremony)
    ensures Inspect(engine, t, input, c) == Ended(Rejected(FactorMissing)) <==> NoFactor(engine, t, input, c.userId)
    ensures Inspect(engine, t, input, c) == Fails(c, InvalidCode) <==> Wrong(engine, t, input, c.userId)
    ensures forall via :: Inspect(engine, t, input, c) == Claims(c, via) <==> Offers(engine, t, input, c.userId, via)
    ensures Inspect(engine, t, input, c) in {Ended(Rejected(FactorMissing)), Fails(c, InvalidCode)}
            || exists via :: Inspect(engine, t, input, c) == Claims(c, via)
  {
    var i := Factors.FindActive(t.factors, c.userId);
    assert forall f: nat :: ReadyAt(t, c.userId, f) ==> f == i;
    assert i < |t.factors| && t.factors[i].value.verifiedAt.Some? && t.factors[i].value.secretCiphertext.Some? ==>
        ReadyAt(t, c.userId, i);
  }

  lemma GrantedIsWon(t: Tables, via: Via)
    requires Grants(t, via)
    ensures Won(t, via)
  {
    match via
    case ByStep(id, timeStep) => assert Newer(t.factors[Find(t.factors, id)], id, timeStep);
    case ByCode(userId, digest) =>
      var codes := RecoveryCodes.CodesOf(t.codes, userId);
      assert Unused(codes[RecoveryCodes.FindUnused(codes, digest)], digest);
  }

  lemma GrantsExactly(t: Tables, via: Via)
    requires Distinct(t.factors)
    ensures Grants(t, via) <==> Won(t, via)
  {
    if Grants(t, via) {
      GrantedIsWon(t, via);
    }
    if via.ByStep? {
      forall f | 0 <= f < |t.factors| && t.factors[f].id == via.factorId ensures Find(t.factors, via.factorId) == f {
        FindIs(t.factors, f);
      }
    }
  }

  // ---- What a submission must have read to authenticate ----

  /** A run from given tables, and one of its submissions. */
  datatype Past = Past(engine: Engine, t: Tables, events: seq<Event>, i: nat)

  function WorldAt(p: Past, n: nat): World
    requires n <= |p.events|
  {
    Run(p.engine, World(p.t, []), p.events[..n])
  }

  lemma {:induction false} RunOneMore(engine: Engine, w: World, events: seq<Event>, e: Event)
    ensures Run(engine, w, events + [e]) == Step(engine, Run(engine, w, events), e)
    decreases |events|
  {
    if events == [] {
      RestOfCons(e, []);
      NothingAdded([e]);
    } else {
      RestOfConcat(events, [e]);
      RunOneMore(engine, Step(engine, w, events[0]), events[1..], e);
    }
  }

  lemma WorldAfter(p: Past, n: nat)
    requires n < |p.events|
    ensures WorldAt(p, n + 1) == Step(p.engine, WorldAt(p, n), p.events[n])
  {
    assert p.events[..n + 1] == p.events[..n] + [p.events[n]];
    RunOneMore(p.engine, World(p.t, []), p.events[..n], p.events[n]);
  }

  /** The `n`th event is a step of the submission. */
  predicate ActsAt(p: Past, n: nat) {
    n < |p.events| && p.events[n] == Proceeds(p.i) && p.i < |WorldAt(p, n).submissions|
  }

  function InputAt(p: Past, n: nat): Input
    requires ActsAt(p, n)
  {
    WorldAt(p, n).submissions[p.i].input
  }

  predicate ReadsRow(rows: PendingAuth.PendingTable, k: nat, input: Input, c: Ceremony) {
    input.credential.Some? && First(rows, k, input.credential.value) && Live(rows[k], input.now)
    && c == Ceremony(rows[k].id, rows[k].value.userId)
  }

  /** The step reads the ceremony, live. */
  ghost predicate ReadsAt(p: Past, n: nat, c: Ceremony) {
    ActsAt(p, n) && exists k: nat :: ReadsRow(WorldAt(p, n).tables.pending, k, InputAt(p, n), c)
  }

  /** The step finds a factor of the ceremony's user, and what the code is good for. */
  ghost predicate OffersAt(p: Past, n: nat, c: Ceremony, via: Via) {
    ActsAt(p, n) && Offers(p.engine, WorldAt(p, n).tables, InputAt(p, n), c.userId, via)
  }

  /** The step is granted the claim. */
  ghost predicate WinsAt(p: Past, n: nat, via: Via) { ActsAt(p, n) && Won(WorldAt(p, n).tables, via) }

  predicate Completable(row: PendingAuth.Pending, id: string, now: int) {
    row.id == id && Open(row) && now < row.value.expiresAt
  }

  /** The step consumes the ceremony, open and unexpired. */
  ghost predicate CompletesAt(p: Past, n: nat, c: Ceremony) {
    && ActsAt(p, n)
    && var rows := WorldAt(p, n).tables.pending;
       exists k: nat :: k < |rows| && Completable(rows[k], c.pendingId, InputAt(p, n).now)
  }

  ghost predicate HasRead(p: Past, n: nat, c: Ceremony) { exists a: nat :: a < n && ReadsAt(p, a, c) }

  ghost predicate HasOffered(p: Past, n: nat, c: Ceremony, via: Via) {
    exists a: nat :: a < n && OffersAt(p, a, c, via) && HasRead(p, a, c)
  }

  ghost predicate HasWon(p: Past, n: nat, c: Ceremony, via: Via) {
    exists a: nat :: a < n && WinsAt(p, a, via) && HasOffered(p, a, c, via)
  }

  /** One after the other: the ceremony read live, the code found good, its claim granted, the ceremony consumed. */
  ghost predicate HasCompleted(p: Past, n: nat, c: Ceremony, via: Via) {
    exists a: nat :: a < n && CompletesAt(p, a, c) && HasWon(p, a, c, via)
  }

  /** What lies behind a submission at each stage. */
  ghost predicate Behind(p: Past, n: nat, stage: Stage) {
    match stage
    case Resolved(c) => HasRead(p, n, c)
    case Claims(c, via) => HasOffered(p, n, c, via)
    case Completes(c, via) => HasWon(p, n, c, via)
    case Ended(Authenticated(userId, via)) => exists c: Ceremony :: c.userId == userId && HasCompleted(p, n, c, via)
    case _ => true
  }

  lemma {:induction false} FoundIsFirst(rows: PendingAuth.PendingTable, digest: string)
    requires FindCredential(rows, digest) < |rows|
    ensures First(rows, FindCredential(rows, digest), digest)
  {
    if rows[0].value.payload.credentialDigest == digest {
    } else {
      var i := FindCredential(rows[1..], digest);
      FoundIsFirst(rows[1..], digest);
      forall j | 0 <= j < i + 1 ensures rows[j].value.payload.credentialDigest != digest {
        assert j > 0 ==> rows[j] == rows[1..][j - 1];
      }
    }
  }

  lemma ResolvedRead(t: Tables, input: Input, c: Ceremony)
    requires Resolve(t, input) == Resolved(c)
    ensures exists k: nat :: ReadsRow(t.pending, k, input, c)
  {
    FoundIsFirst(t.pending, input.credential.value);
    assert ReadsRow(t.pending, FindCredential(t.pending, input.credential.value), input, c);
  }

  lemma UsableIsCompletable(rows: PendingAuth.PendingTable, id: string, now: int)
    requires PendingAuth.Usable(rows, id, now)
    ensures exists k: nat :: k < |rows| && Completable(rows[k], id, now)
  {
    assert Completable(rows[Find(rows, id)], id, now);
  }

  lemma ReadStep(p: Past, n: nat, c: Ceremony)
    requires ActsAt(p, n) && Resolve(WorldAt(p, n).tables, InputAt(p, n)) == Resolved(c)
    ensures HasRead(p, n + 1, c)
  {
    ResolvedRead(WorldAt(p, n).tables, InputAt(p, n), c);
    var k: nat :| ReadsRow(WorldAt(p, n).tables.pending, k, InputAt(p, n), c);
    assert ReadsAt(p, n, c);
  }

  lemma OfferStep(p: Past, n: nat, c: Ceremony, via: Via)
    requires ActsAt(p, n) && Inspect(p.engine, WorldAt(p, n).tables, InputAt(p, n), c) == Claims(c, via)
    requires HasRead(p, n, c)
    ensures HasOffered(p, n + 1, c, via)
  {
    InspectsExactly(p.engine, WorldAt(p, n).tables, InputAt(p, n), c);
    assert OffersAt(p, n, c, via);
  }

  lemma WinStep(p: Past, n: nat, c: Ceremony, via: Via)
    requires ActsAt(p, n) && Grants(WorldAt(p, n).tables, via) && HasOffered(p, n, c, via)
    ensures HasWon(p, n + 1, c, via)
  {
    GrantedIsWon(WorldAt(p, n).tables, via);
    assert WinsAt(p, n, via);
  }

  lemma CompletionStep(p: Past, n: nat, c: Ceremony, via: Via)
    requires ActsAt(p, n) && PendingAuth.Usable(WorldAt(p, n).tables.pending, c.pendingId, InputAt(p, n).now)
    requires HasWon(p, n, c, via)
    ensures HasCompleted(p, n + 1, c, via)
  {
    UsableIsCompletable(WorldAt(p, n).tables.pending, c.pendingId, InputAt(p, n).now);
    assert CompletesAt(p, n, c);
  }

  /** One step of the submission. */
  lemma BehindStep(p: Past, n: nat)
    requires ActsAt(p, n) && Behind(p, n, WorldAt(p, n).submissions[p.i].stage)
    ensures Behind(p, n + 1, NextStage(p.engine, WorldAt(p, n).tables, WorldAt(p, n).submissions[p.i]))
  {
    var s := WorldAt(p, n).submissions[p.i];
    var next := NextStage(p.engine, WorldAt(p, n).tables, s);
    match s.stage
    case Arrived => if next.Resolved? { ReadStep(p, n, next.ceremony); }
    case Resolved(c) => if next.Claims? { OfferStep(p, n, c, next.via); }
    case Claims(c, via) => if next.Completes? { WinStep(p, n, c, via); }
    case Completes(c, via) => if next.result.Authenticated? { CompletionStep(p, n, c, via); }
    case Fails(_, _) =>
    case Ended(_) => BehindStays(p, n, s.stage);
  }

  lemma BehindStays(p: Past, n: nat, stage: Stage)
    requires Behind(p, n, stage)
    ensures Behind(p, n + 1, stage)
  {
    if stage.Ended? && stage.result.Authenticated? {
      var c: Ceremony :| c.userId == stage.result.userId && HasCompleted(p, n, c, stage.result.via);
      assert HasCompleted(p, n + 1, c, stage.result.via);
    }
  }

  /** One event of the run. */
  lemma BehindEvent(p: Past, n: nat)
    requires n < |p.events| && p.i < |WorldAt(p, n).submissions|
    requires Behind(p, n, WorldAt(p, n).submissions[p.i].stage)
    ensures p.i < |WorldAt(p, n + 1).submissions| && Behind(p, n + 1, WorldAt(p, n + 1).submissions[p.i].stage)
  {
    WorldAfter(p, n);
    if p.events[n] == Proceeds(p.i) {
      BehindStep(p, n);
    } else {
      BehindStays(p, n, WorldAt(p, n).submissions[p.i].stage);
    }
  }

  lemma {:induction false} AlwaysBehind(p: Past, n: nat)
    requires n <= |p.events| && p.i < |WorldAt(p, n).submissions|
    ensures Behind(p, n, WorldAt(p, n).submissions[p.i].stage)
  {
    if n == 0 {
    } else if p.i < |WorldAt(p, n - 1).submissions| {
      AlwaysBehind(p, n - 1);
      BehindEvent(p, n - 1);
    } else {
      WorldAfter(p, n - 1);
    }
  }

  /**
   * Over any run: a submission that has authenticated has read its ceremony open, unexpired and with an
   * attempt left, then found its code good, then won the claim, then found the ceremony open again.
   */
  lemma AuthenticatedHasPassed(p: Past, userId: string, via: Via)
    requires var w := Run(p.engine, World(p.t, []), p.events);
             p.i < |w.submissions| && w.submissions[p.i].stage == Ended(Authenticated(userId, via))
    ensures exists c: Ceremony :: c.userId == userId && HasCompleted(p, |p.events|, c, via)
  {
    assert p.events[..|p.events|] == p.events;
    AlwaysBehind(p, |p.events|);
  }

  // ---- A submission that has ended ----

  /** It stays as it is, and writes nothing more. */
  lemma {:induction false} EndedStays(engine: Engine, w: World, events: seq<Event>, i: nat)
    requires i < |w.submissions| && w.submissions[i].stage.Ended?
    ensures var later := Run(engine, w, events);
            i < |later.submissions| && later.submissions[i] == w.submissions[i] && Effect(later.submissions[i]) == None
    decreases |events|
  {
    if events == [] {
    } else {
      EndedStays(engine, Step(engine, w, events[0]), events[1..], i);
    }
  }

  /**
   * A submission that reads its ceremony when no attempts are left is rejected for that and writes
   * nothing, whatever its code is; and whatever comes later, it never authenticates.
   */
  lemma ExhaustedIsRejected(engine: Engine, w: World, events: seq<Event>, i: nat, k: nat)
    requires i < |w.submissions| && w.submissions[i].stage == Arrived && w.submissions[i].input.credential.Some?
    requires First(w.tables.pending, k, w.submissions[i].input.credential.value)
    requires var row, now := w.tables.pending[k], w.submissions[i].input.now;
             Open(row) && now < row.value.expiresAt
             && row.value.payload.maxAttempts <= row.value.payload.failedAttempts
    ensures Step(engine, w, Proceeds(i)).tables == w.tables
    ensures var later := Run(engine, w, [Proceeds(i)] + events);
            i < |later.submissions|
            && later.submissions[i] == Submission(w.submissions[i].input, Ended(Rejected(AttemptsExhausted)))
  {
    ResolvesExactly(w.tables, w.submissions[i].input, k);
    RestOfCons(Proceeds(i), events);
    EndedStays(engine, Step(engine, w, Proceeds(i)), events, i);
  }

  // ---- A submission that is served as a whole ----

  /** A submission arrives and takes its four steps before anything else happens. */
  function Whole(i: nat, input: Input): seq<Event> {
    [Submits(input), Proceeds(i), Proceeds(i), Proceeds(i), Proceeds(i)]
  }

  function ServeAlone(engine: Engine, w: World, input: Input): World {
    Run(engine, w, Whole(|w.submissions|, input))
  }

  function StepAlone(engine: Engine, at: (Tables, Submission)): (Tables, Submission) {
    (Write(at.0, Effect(at.1)), Submission(at.1.input, NextStage(engine, at.0, at.1)))
  }

  function FourSteps(engine: Engine, t: Tables, input: Input): (Tables, Submission) {
    StepAlone(engine, StepAlone(engine, StepAlone(engine, StepAlone(engine, (t, Submission(input, Arrived))))))
  }

  lemma StepOfLast(engine: Engine, w: World, before: seq<Submission>, s: Submission)
    requires w.submissions == before + [s]
    ensures var at := StepAlone(engine, (w.tables, s));
            Step(engine, w, Proceeds(|before|)) == World(at.0, before + [at.1])
  {}

  lemma RunOfCons(engine: Engine, w: World, e: Event, events: seq<Event>)
    ensures Run(engine, w, [e] + events) == Run(engine, Step(engine, w, e), events)
  {
    RestOfCons(e, events);
  }

  lemma AloneIsFourSteps(engine: Engine, w: World, input: Input)
    ensures var end := FourSteps(engine, w.tables, input);
            ServeAlone(engine, w, input) == World(end.0, w.submissions + [end.1])
  {
    var n, s := |w.submissions|, Submission(input, Arrived);
    var e, at1 := Proceeds(n), StepAlone(engine, (w.tables, s));
    var at2 := StepAlone(engine, at1);
    var at3 := StepAlone(engine, at2);
    assert Whole(n, input) == [Submits(input)] + ([e] + ([e] + ([e] + ([e] + []))));
    RunOfCons(engine, w, Submits(input), [e] + ([e] + ([e] + ([e] + []))));
    var w0, w1 := World(w.tables, w.submissions + [s]), World(at1.0, w.submissions + [at1.1]);
    var w2, w3 := World(at2.0, w.submissions + [at2.1]), World(at3.0, w.submissions + [at3.1]);
    RunOfCons(engine, w0, e, [e] + ([e] + ([e] + [])));
    StepOfLast(engine, w0, w.submissions, s);
    RunOfCons(engine, w1, e, [e] + ([e] + []));
    StepOfLast(engine, w1, w.submissions, at1.1);
    RunOfCons(engine, w2, e, [e] + []);
    StepOfLast(engine, w2, w.submissions, at2.1);
    RunOfCons(engine, w3, e, []);
    StepOfLast(engine, w3, w.submissions, at3.1);
  }

  /** Served as a whole, the submission leaves these tables and ends with this result. */
  predicate Ends(engine: Engine, w: World, input: Input, t: Tables, result: Result) {
    var later, n := ServeAlone(engine, w, input), |w.submissions|;
    && later.tables == t && |later.submissions| == n + 1 && later.submissions[..n] == w.submissions
    && later.submissions[n] == Submission(input, Ended(result))
  }

  /** No ceremony has the credential. */
  lemma EndsUnknown(engine: Engine, w: World, input: Input)
    requires input.credential.Some? ==> forall k :: 0 <= k < |w.tables.pending| ==>
               w.tables.pending[k].value.payload.credentialDigest != input.credential.value
    ensures Ends(engine, w, input, w.tables, Rejected(PendingNotFound))
  {
    AloneIsFourSteps(engine, w, input);
    if input.credential.Some? {
      NoCredential(w.tables.pending, input.credential.value);
    }
  }

  /** The ceremony is over, or it has expired, or its attempts are used up. */
  lemma EndsAtReading(engine: Engine, w: World, input: Input, k: nat)
    requires input.credential.Some? && First(w.tables.pending, k, input.credential.value)
    requires !Live(w.tables.pending[k], input.now)
    ensures var row := w.tables.pending[k];
            Ends(engine, w, input, w.tables,
                 Rejected(if !Open(row) then PendingNotFound
                          else if row.value.expiresAt <= input.now then PendingExpired
                          else AttemptsExhausted))
  {
    AloneIsFourSteps(engine, w, input);
    ResolvesExactly(w.tables, input, k);
  }

  function CeremonyOf(row: PendingAuth.Pending): Ceremony { Ceremony(row.id, row.value.userId) }

  /** The first two steps of a submission whose ceremony is live. */
  lemma TwoSteps(engine: Engine, t: Tables, input: Input, k: nat)
    requires input.credential.Some? && First(t.pending, k, input.credential.value) && Live(t.pending[k], input.now)
    ensures StepAlone(engine, StepAlone(engine, (t, Submission(input, Arrived))))
         == (t, Submission(input, Inspect(engine, t, input, CeremonyOf(t.pending[k]))))
  {
    ResolvesExactly(t, input, k);
  }

  /** Its user has no verified factor, or no account name that a code could be checked for. */
  lemma EndsWithoutFactor(engine: Engine, w: World, input: Input, k: nat)
    requires input.credential.Some? && First(w.tables.pending, k, input.credential.value)
    requires Live(w.tables.pending[k], input.now)
    requires NoFactor(engine, w.tables, input, w.tables.pending[k].value.userId)
    ensures Ends(engine, w, input, w.tables, Rejected(FactorMissing))
  {
    AloneIsFourSteps(engine, w, input);
    TwoSteps(engine, w.tables, input, k);
    InspectsExactly(engine, w.tables, input, CeremonyOf(w.tables.pending[k]));
  }

  /** The ceremony with one more failed attempt. */
  function OneMoreFailed(rows: PendingAuth.PendingTable, k: nat): PendingAuth.PendingTable
    requires k < |rows|
  {
    var life := rows[k].value;
    var payload := life.payload.(failedAttempts := life.payload.failedAttempts + 1);
    rows[k := Entry(rows[k].id, life.(payload := payload))]
  }

  /** The code is wrong, or what it is good for is used up. */
  ghost predicate FailsBy(engine: Engine, t: Tables, input: Input, userId: string, reason: Reason) {
    || (Wrong(engine, t, input, userId) && reason == InvalidCode)
    || exists via :: Offers(engine, t, input, userId, via) && !Won(t, via)
         && reason == match via case ByCode(_, _) => InvalidCode case ByStep(_, _) => CodeReplayed
  }

  /** A failure steps to its end. */
  lemma FailureEnds(engine: Engine, t: Tables, input: Input, k: nat, reason: Reason)
    requires Distinct(t.pending) && k < |t.pending|
    ensures var attempts := t.pending[k].value.payload;
            StepAlone(engine, (t, Submission(input, Fails(CeremonyOf(t.pending[k]), reason))))
            == (t.(pending := OneMoreFailed(t.pending, k)),
                Submission(input, Ended(Rejected(
                  if attempts.maxAttempts <= attempts.failedAttempts + 1 then AttemptsExhausted else reason))))
  {
    FindIs(t.pending, k);
  }

  /** A claim that is not granted writes nothing. */
  lemma LostClaimFails(engine: Engine, t: Tables, input: Input, c: Ceremony, via: Via)
    requires Distinct(t.factors) && !Won(t, via)
    ensures StepAlone(engine, (t, Submission(input, Claims(c, via))))
         == (t, Submission(input, Fails(c, if via.ByCode? then InvalidCode else CodeReplayed)))
  {
    GrantsExactly(t, via);
  }

  /** It costs an attempt, and it is told apart from the last attempt. */
  lemma EndsFailed(engine: Engine, w: World, input: Input, k: nat, reason: Reason)
    requires Distinct(w.tables.pending) && Distinct(w.tables.factors)
    requires input.credential.Some? && First(w.tables.pending, k, input.credential.value)
    requires Live(w.tables.pending[k], input.now)
    requires FailsBy(engine, w.tables, input, w.tables.pending[k].value.userId, reason)
    ensures var attempts := w.tables.pending[k].value.payload;
            Ends(engine, w, input, w.tables.(pending := OneMoreFailed(w.tables.pending, k)),
                 Rejected(if attempts.maxAttempts <= attempts.failedAttempts + 1 then AttemptsExhausted else reason))
  {
    var t := w.tables;
    var c := CeremonyOf(t.pending[k]);
    AloneIsFourSteps(engine, w, input);
    TwoSteps(engine, t, input, k);
    InspectsExactly(engine, t, input, c);
    FailureEnds(engine, t, input, k, reason);
    if !Wrong(engine, t, input, c.userId) {
      var via :| Offers(engine, t, input, c.userId, via) && !Won(t, via)
                 && reason == match via case ByCode(_, _) => InvalidCode case ByStep(_, _) => CodeReplayed;
      LostClaimFails(engine, t, input, c, via);
    }
  }

  /** The claim in the tables: the factor's last step, or the moment of use of the first unused code. */
  ghost predicate ClaimWritten(t: Tables, later: Tables, via: Via, now: int) {
    match via
    case ByStep(id, timeStep) =>
      && later.codes == t.codes && ChangedAt(t.factors, later.factors, id)
      && forall f :: 0 <= f < |t.factors| && t.factors[f].id == id ==>
           later.factors[f].value == t.factors[f].value.(lastUsedTimeStep := Some(timeStep))
    case ByCode(userId, digest) =>
      && later.factors == t.factors && userId in t.codes
      && exists c: nat :: CodeUsed(t.codes[userId], c, digest)
          && later.codes == t.codes[userId := t.codes[userId][c := t.codes[userId][c].(consumedAt := Some(now))]]
  }

  /** The first unused code with the digest. */
  predicate CodeUsed(codes: seq<RecoveryCodes.Code>, c: nat, digest: string) {
    c < |codes| && Unused(codes[c], digest) && forall j :: 0 <= j < c ==> !Unused(codes[j], digest)
  }

  lemma ClaimIsWritten(t: Tables, via: Via, now: int)
    requires Distinct(t.factors) && Grants(t, via)
    ensures ClaimWritten(t, Apply(t, Claim(via, now)), via, now) && Apply(t, Claim(via, now)).pending == t.pending
  {
    match via
    case ByStep(id, _) =>
      forall f | 0 <= f < |t.factors| && t.factors[f].id == id ensures Find(t.factors, id) == f {
        FindIs(t.factors, f);
      }
    case ByCode(userId, digest) =>
      assert CodeUsed(t.codes[userId], RecoveryCodes.FindUnused(t.codes[userId], digest), digest);
  }

  /** The ceremony, consumed. */
  function ConsumedAt(rows: PendingAuth.PendingTable, k: nat, now: int): PendingAuth.PendingTable
    requires k < |rows|
  {
    rows[k := Entry(rows[k].id, rows[k].value.(consumedAt := Some(now)))]
  }

  lemma CompletionEnds(engine: Engine, t: Tables, input: Input, k: nat, via: Via)
    requires Distinct(t.pending) && k < |t.pending| && Live(t.pending[k], input.now)
    ensures StepAlone(engine, (t, Submission(input, Completes(CeremonyOf(t.pending[k]), via))))
         == (t.(pending := ConsumedAt(t.pending, k, input.now)),
             Submission(input, Ended(Authenticated(t.pending[k].value.userId, via))))
  {
    FindIs(t.pending, k);
  }

  /** The code is good and its claim is granted. */
  lemma EndsAuthenticated(engine: Engine, w: World, input: Input, k: nat, via: Via) returns (claimed: Tables)
    requires Distinct(w.tables.pending) && Distinct(w.tables.factors)
    requires input.credential.Some? && First(w.tables.pending, k, input.credential.value)
    requires Live(w.tables.pending[k], input.now)
    requires Offers(engine, w.tables, input, w.tables.pending[k].value.userId, via) && Won(w.tables, via)
    ensures ClaimWritten(w.tables, claimed, via, input.now)
    ensures Ends(engine, w, input, claimed.(pending := ConsumedAt(w.tables.pending, k, input.now)),
                 Authenticated(w.tables.pending[k].value.userId, via))
  {
    var t := w.tables;
    var c := CeremonyOf(t.pending[k]);
    AloneIsFourSteps(engine, w, input);
    TwoSteps(engine, t, input, k);
    InspectsExactly(engine, t, input, c);
    GrantsExactly(t, via);
    claimed := Apply(t, Claim(via, input.now));
    ClaimIsWritten(t, via, input.now);
    CompletionEnds(engine, claimed, input, k, via);
  }

  /** A live ceremony's submission ends in one of three ways. */
  lemma EveryCase(engine: Engine, t: Tables, input: Input, userId: string)
    ensures NoFactor(engine, t, input, userId)
            || (exists reason :: FailsBy(engine, t, input, userId, reason))
            || exists via :: Offers(engine, t, input, userId, via) && Won(t, via)
  {
    var c := Ceremony("", userId);
    InspectsExactly(engine, t, input, c);
    var next := Inspect(engine, t, input, c);
    if next == Fails(c, InvalidCode) {
      assert FailsBy(engine, t, input, userId, InvalidCode);
    } else if next.Claims? && !Won(t, next.via) {
      assert Offers(engine, t, input, userId, next.via);
      assert FailsBy(engine, t, input, userId,
                     match next.via case ByCode(_, _) => InvalidCode case ByStep(_, _) => CodeReplayed);
    }
  }

  /** Everything that a submission needs, found in the ceremony with its credential. */
  ghost predicate Succeeds(engine: Engine, t: Tables, input: Input, k: nat, userId: string, via: Via) {
    input.credential.Some? && First(t.pending, k, input.credential.value) && Live(t.pending[k], input.now)
    && t.pending[k].value.userId == userId && Offers(engine, t, input, userId, via) && Won(t, via)
  }

  /**
   * Served as a whole, a submission authenticates exactly if the first ceremony with its credential is
   * open, unexpired and has an attempt left, and its user's factor makes of the code a newer time step
   * or an unused recovery code.
   */
  lemma AuthenticatesExactly(engine: Engine, w: World, input: Input, userId: string, via: Via)
    requires Distinct(w.tables.pending) && Distinct(w.tables.factors)
    ensures (exists t :: Ends(engine, w, input, t, Authenticated(userId, via)))
            <==> exists k: nat :: Succeeds(engine, w.tables, input, k, userId, via)
  {
    var t, rows := w.tables, w.tables.pending;
    if k: nat :| Succeeds(engine, t, input, k, userId, via) {
      var claimed := EndsAuthenticated(engine, w, input, k, via);
    } else if input.credential.None? || FindCredential(rows, input.credential.value) == |rows| {
      UnfoundIsNowhere(rows, input);
      EndsUnknown(engine, w, input);
    } else {
      var k := FindCredential(rows, input.credential.value);
      FoundIsFirst(rows, input.credential.value);
      NotAuthenticated(engine, w, input, k, userId, via);
    }
  }

  lemma {:induction false} UnfoundIsNowhere(rows: PendingAuth.PendingTable, input: Input)
    requires input.credential.Some? ==> FindCredential(rows, input.credential.value) == |rows|
    ensures input.credential.Some? ==> forall k :: 0 <= k < |rows| ==>
              rows[k].value.payload.credentialDigest != input.credential.value
  {
    if rows == [] || input.credential.None? {
    } else {
      UnfoundIsNowhere(rows[1..], input);
      forall k | 0 <= k < |rows| ensures rows[k].value.payload.credentialDigest != input.credential.value {
        assert k > 0 ==> rows[k] == rows[1..][k - 1];
      }
    }
  }

  lemma NotAuthenticated(engine: Engine, w: World, input: Input, k: nat, userId: string, via: Via)
    requires Distinct(w.tables.pending) && Distinct(w.tables.factors)
    requires input.credential.Some? && First(w.tables.pending, k, input.credential.value)
    requires !Succeeds(engine, w.tables, input, k, userId, via)
    ensures forall t :: !Ends(engine, w, input, t, Authenticated(userId, via))
  {
    var t, row := w.tables, w.tables.pending[k];
    var owner := row.value.userId;
    EveryCase(engine, t, input, owner);
    if !Live(row, input.now) {
      EndsAtReading(engine, w, input, k);
    } else if NoFactor(engine, t, input, owner) {
      EndsWithoutFactor(engine, w, input, k);
    } else if reason :| FailsBy(engine, t, input, owner, reason) {
      EndsFailed(engine, w, input, k, reason);
    } else {
      var other :| Offers(engine, t, input, owner, other) && Won(t, other);
      var claimed := EndsAuthenticated(engine, w, input, k, other);
    }
  }

  // ---- Served one after the other, submissions never pass the ceiling ----

  /** What a served submission leaves of the ceremonies is what the decision on its reading leaves. */
  lemma ServedAsDecided(engine: Engine, w: World, input: Input)
    requires Distinct(w.tables.pending) && Distinct(w.tables.factors)
    ensures var later := ServeAlone(engine, w, input).tables.pending;
            later == w.tables.pending
            || exists id, correct ::
                 later == PendingAuth.Serve(w.tables.pending, PendingAuth.Submission(id, input.now, correct))
  {
    var t, rows := w.tables, w.tables.pending;
    if input.credential.None? || FindCredential(rows, input.credential.value) == |rows| {
      UnfoundIsNowhere(rows, input);
      EndsUnknown(engine, w, input);
    } else {
      var k := FindCredential(rows, input.credential.value);
      FoundIsFirst(rows, input.credential.value);
      ServedCeremony(engine, w, input, k);
    }
  }

  lemma DecidedFailure(rows: PendingAuth.PendingTable, k: nat, now: int)
    requires Distinct(rows) && k < |rows| && Live(rows[k], now)
    ensures PendingAuth.Serve(rows, PendingAuth.Submission(rows[k].id, now, false)) == OneMoreFailed(rows, k)
    ensures PendingAuth.Serve(rows, PendingAuth.Submission(rows[k].id, now, true)) == ConsumedAt(rows, k, now)
  {
    FindIs(rows, k);
    PendingAuth.OneStep(rows, PendingAuth.Fails(rows[k].id));
    PendingAuth.OneStep(rows, PendingAuth.Consumes(rows[k].id, now));
  }

  lemma ServedCeremony(engine: Engine, w: World, input: Input, k: nat)
    requires Distinct(w.tables.pending) && Distinct(w.tables.factors)
    requires input.credential.Some? && First(w.tables.pending, k, input.credential.value)
    ensures var rows, later := w.tables.pending, ServeAlone(engine, w, input).tables.pending;
            later == rows
            || later == PendingAuth.Serve(rows, PendingAuth.Submission(rows[k].id, input.now, false))
            || later == PendingAuth.Serve(rows, PendingAuth.Submission(rows[k].id, input.now, true))
  {
    var t, row := w.tables, w.tables.pending[k];
    var owner := row.value.userId;
    EveryCase(engine, t, input, owner);
    if !Live(row, input.now) {
      EndsAtReading(engine, w, input, k);
    } else if NoFactor(engine, t, input, owner) {
      EndsWithoutFactor(engine, w, input, k);
    } else if reason :| FailsBy(engine, t, input, owner, reason) {
      DecidedFailure(t.pending, k, input.now);
      EndsFailed(engine, w, input, k, reason);
    } else {
      var via :| Offers(engine, t, input, owner, via) && Won(t, via);
      DecidedFailure(t.pending, k, input.now);
      var claimed := EndsAuthenticated(engine, w, input, k, via);
    }
  }

  /** A submission as a whole, or another request: a login, a reset, or any write to factors or codes. */
  datatype Turn = Submit(input: Input) | Request(change: Change)

  /** Failures are counted and ceremonies are consumed by submissions alone. */
  predicate Elsewhere(turn: Turn) {
    turn.Request? && turn.change.OnPending? ==> turn.change.pendingOp.Begins? || turn.change.pendingOp.RevokesAll?
  }

  /** The events of the turns, if `n` submissions came before them. */
  function InTurn(n: nat, turns: seq<Turn>): seq<Event>
    decreases |turns|
  {
    if turns == [] then []
    else match turns[0]
      case Submit(input) => Whole(n, input) + InTurn(n + 1, turns[1..])
      case Request(change) => [Changes(change)] + InTurn(n, turns[1..])
  }

  lemma {:induction false} RunConcat(engine: Engine, w: World, a: seq<Event>, b: seq<Event>)
    ensures Run(engine, w, a + b) == Run(engine, Run(engine, w, a), b)
    decreases |a|
  {
    if a == [] {
      NothingAdded(b);
    } else {
      RestOfConcat(a, b);
      RunConcat(engine, Step(engine, w, a[0]), a[1..], b);
    }
  }

  predicate Orderly(t: Tables) {
    Distinct(t.pending) && Distinct(t.factors) && PendingAuth.AllBounded(t.pending)
  }

  lemma ApplyKeepsOrder(t: Tables, change: Change)
    requires Distinct(t.pending) && Distinct(t.factors)
    ensures Distinct(Apply(t, change).pending) && Distinct(Apply(t, change).factors)
  {
    match change
    case OnPending(op) =>
      PendingAuth.StepIsLife(t.pending, op);
      PendingAuth.Lifecycle.ApplyKeepsDistinct(t.pending, PendingAuth.AsLife(t.pending, op));
    case OnFactors(op) => Factors.ApplyKeepsDistinct(t.factors, op);
    case OnCodes(_) =>
  }

  lemma {:induction false} RunKeepsOrder(engine: Engine, w: World, events: seq<Event>)
    requires Distinct(w.tables.pending) && Distinct(w.tables.factors)
    ensures var t := Run(engine, w, events).tables; Distinct(t.pending) && Distinct(t.factors)
    decreases |events|
  {
    if events == [] {
    } else {
      if Written(w, events[0]).Some? {
        ApplyKeepsOrder(w.tables, Written(w, events[0]).value);
      }
      RunKeepsOrder(engine, Step(engine, w, events[0]), events[1..]);
    }
  }

  lemma ServeKeepsOrderly(engine: Engine, w: World, input: Input)
    requires Orderly(w.tables)
    ensures var later := ServeAlone(engine, w, input);
            Orderly(later.tables) && |later.submissions| == |w.submissions| + 1
  {
    var rows, later := w.tables.pending, ServeAlone(engine, w, input).tables.pending;
    AloneIsFourSteps(engine, w, input);
    RunKeepsOrder(engine, w, Whole(|w.submissions|, input));
    ServedAsDecided(engine, w, input);
    if later != rows {
      var id, correct :| later == PendingAuth.Serve(rows, PendingAuth.Submission(id, input.now, correct));
      PendingAuth.ServeKeepsBounds(rows, PendingAuth.Submission(id, input.now, correct));
    }
  }

  lemma RequestKeepsOrderly(engine: Engine, w: World, change: Change)
    requires Orderly(w.tables) && Elsewhere(Request(change))
    ensures Step(engine, w, Changes(change)) == World(Apply(w.tables, change), w.submissions)
    ensures Orderly(Apply(w.tables, change))
  {
    ApplyKeepsOrder(w.tables, change);
    if change.OnPending? {
      PendingAuth.BoundedStep(w.tables.pending, change.pendingOp);
    }
  }

  /**
   * Over any run in which submissions are served one after the other, with other requests in between, no
   * ceremony gets more failures than it allows, nor authenticates anyone at its ceiling.
   */
  lemma {:induction false} SubmissionsInTurnStayBounded(engine: Engine, w: World, turns: seq<Turn>)
    requires Orderly(w.tables) && forall k :: 0 <= k < |turns| ==> Elsewhere(turns[k])
    ensures Orderly(Run(engine, w, InTurn(|w.submissions|, turns)).tables)
    decreases |turns|
  {
    var n := |w.submissions|;
    if turns == [] {
    } else {
      match turns[0]
      case Submit(input) =>
        RunConcat(engine, w, Whole(n, input), InTurn(n + 1, turns[1..]));
        ServeKeepsOrderly(engine, w, input);
        SubmissionsInTurnStayBounded(engine, ServeAlone(engine, w, input), turns[1..]);
      case Request(change) =>
        RunOfCons(engine, w, Changes(change), InTurn(n, turns[1..]));
        RequestKeepsOrderly(engine, w, change);
        SubmissionsInTurnStayBounded(engine, Step(engine, w, Changes(change)), turns[1..]);
    }
  }
}
