/**
 * Completing the second factor: submissions that resolve a ceremony, look up the factor, claim a time
 * step or a recovery code, and consume the ceremony. Each is one operation on the store at a time, and
 * the operations of any number of submissions and other requests come in any order.
 */
module SecondFactor {
  import opened Text
  import opened Rows
  import Factors
  import PendingAuth
  import RecoveryCodes

  // ---- The tables ----

  datatype Tables = Tables(pending: PendingAuth.PendingTable, factors: Factors.FactorTable, codes: RecoveryCodes.Codes)

  datatype Change =
    | OnPending(pendingOp: PendingAuth.Op)
    | OnFactors(factorOp: Factors.Op)
    | OnCodes(codesOp: RecoveryCodes.Op)

  function Apply(t: Tables, change: Change): Tables {
    match change
    case OnPending(op) => t.(pending := PendingAuth.Apply(t.pending, op))
    case OnFactors(op) => t.(factors := Factors.Apply(t.factors, op))
    case OnCodes(op) => t.(codes := RecoveryCodes.Apply(t.codes, op))
  }

  // ---- One submission ----

  /** What is not modelled: the shapes of codes, the labels of accounts, and the one-time-password arithmetic. */
  datatype Engine = Engine(recoveryDigest: string -> Option<string>, wellFormed: string -> bool,
                           labelOf: string -> Option<string>,
                           verify: (string, string, int, string) -> Option<int>)

  /** The digest of the credential, if it is well-formed, and the code. */
  datatype Input = Input(credential: Option<string>, code: string, now: int)

  /** What a submission claims: a time step of a factor, or a recovery code of a user. */
  datatype Via = ByStep(factorId: string, timeStep: int) | ByCode(userId: string, digest: string)

  datatype Reason = PendingNotFound | PendingExpired | AttemptsExhausted | InvalidCode | CodeReplayed | FactorMissing

  datatype Result = Authenticated(userId: string, via: Via) | Rejected(reason: Reason)

  datatype Ceremony = Ceremony(pendingId: string, userId: string)

  /** What the submission does next. */
  datatype Stage =
    | Arrived
    | Resolved(ceremony: Ceremony)
    | Claims(ceremony: Ceremony, via: Via)
    | Fails(ceremony: Ceremony, reason: Reason)
    | Completes(ceremony: Ceremony, via: Via)
    | Ended(result: Result)

  datatype Submission = Submission(input: Input, stage: Stage)

  /** The index of the first ceremony with the credential, or the number of rows. */
  function FindCredential(rows: PendingAuth.PendingTable, digest: string): (i: nat)
    ensures i <= |rows|
  {
    if rows == [] || rows[0].value.payload.credentialDigest == digest then 0 else 1 + FindCredential(rows[1..], digest)
  }

  /** `findByCredentialDigest`, and the checks on what it returns. */
  function Resolve(t: Tables, input: Input): Stage {
    if input.credential.None? then Ended(Rejected(PendingNotFound))
    else
      var i := FindCredential(t.pending, input.credential.value);
      if i == |t.pending| || t.pending[i].value.consumedAt.Some? || t.pending[i].value.closedAt.Some?
        then Ended(Rejected(PendingNotFound))
      else if t.pending[i].value.expiresAt <= input.now then Ended(Rejected(PendingExpired))
      else if PendingAuth.Exhausted(t.pending[i]) then Ended(Rejected(AttemptsExhausted))
      else Resolved(Ceremony(t.pending[i].id, t.pending[i].value.userId))
  }

  /** `findActiveForUser`, and what the code is taken for. */
  function Inspect(engine: Engine, t: Tables, input: Input, c: Ceremony): Stage {
    var i := Factors.FindActive(t.factors, c.userId);
    if i == |t.factors| || t.factors[i].value.verifiedAt.None? || t.factors[i].value.secretCiphertext.None?
      then Ended(Rejected(FactorMissing))
    else if engine.recoveryDigest(input.code).Some?
      then Claims(c, ByCode(c.userId, engine.recoveryDigest(input.code).value))
    else if !engine.wellFormed(input.code) then Fails(c, InvalidCode)
    else if engine.labelOf(c.userId).None? then Ended(Rejected(FactorMissing))
    else
      var secret := t.factors[i].value.secretCiphertext.value;
      match engine.verify(secret, input.code, input.now, engine.labelOf(c.userId).value)
      case None => Fails(c, InvalidCode)
      case Some(timeStep) => Claims(c, ByStep(t.factors[i].id, timeStep))
  }

  /** Whether the store grants the claim. */
  predicate Grants(t: Tables, via: Via) {
    match via
    case ByStep(factorId, timeStep) => Factors.Accepts(t.factors, factorId, timeStep)
    case ByCode(userId, digest) => RecoveryCodes.Usable(t.codes, userId, digest)
  }

  function Claim(via: Via, now: int): Change {
    match via
    case ByStep(factorId, timeStep) => OnFactors(Factors.Advances(factorId, timeStep))
    case ByCode(userId, digest) => OnCodes(RecoveryCodes.Consumes(userId, digest, now))
  }

  /** What the next step writes, if anything. */
  function Effect(s: Submission): Option<Change> {
    match s.stage
    case Claims(_, via) => Some(Claim(via, s.input.now))
    case Fails(c, _) => Some(OnPending(PendingAuth.Fails(c.pendingId)))
    case Completes(c, _) => Some(OnPending(PendingAuth.Consumes(c.pendingId, s.input.now)))
    case _ => None
  }

  function NextStage(engine: Engine, t: Tables, s: Submission): Stage {
    match s.stage
    case Arrived => Resolve(t, s.input)
    case Resolved(c) => Inspect(engine, t, s.input, c)
    case Claims(c, via) =>
      if Grants(t, via) then Completes(c, via) else Fails(c, if via.ByCode? then InvalidCode else CodeReplayed)
    case Fails(c, reason) =>
      Ended(Rejected(if PendingAuth.OutcomeOf(t.pending, c.pendingId).exhausted then AttemptsExhausted else reason))
    case Completes(c, via) =>
      if PendingAuth.Usable(t.pending, c.pendingId, s.input.now) then Ended(Authenticated(c.userId, via))
      else Ended(Rejected(PendingNotFound))
    case Ended(_) => s.stage
  }

  // ---- Any number of submissions ----

  datatype World = World(tables: Tables, submissions: seq<Submission>)

  /** A submission arrives, one goes on by a step, or another request writes. */
  datatype Event = Submits(input: Input) | Proceeds(i: nat) | Changes(change: Change)

  function Written(w: World, e: Event): Option<Change> {
    match e
    case Submits(_) => None
    case Proceeds(i) => if i < |w.submissions| then Effect(w.submissions[i]) else None
    case Changes(change) => Some(change)
  }

  function Write(t: Tables, change: Option<Change>): Tables { if change.Some? then Apply(t, change.value) else t }

  function Step(engine: Engine, w: World, e: Event): World {
    var submissions :=
      match e
      case Submits(input) => w.submissions + [Submission(input, Arrived)]
      case Proceeds(i) =>
        if i < |w.submissions|
          then w.submissions[i := Submission(w.submissions[i].input, NextStage(engine, w.tables, w.submissions[i]))]
        else w.submissions
      case Changes(_) => w.submissions;
    World(Write(w.tables, Written(w, e)), submissions)
  }

  function Run(engine: Engine, w: World, events: seq<Event>): World
    decreases |events|
  {
    if events == [] then w else Run(engine, Step(engine, w, events[0]), events[1..])
  }

  // ---- What is granted authenticates, comes late, or waits ----

  /** Which claims are counted: one, or all. */
  predicate Counted(via: Via, which: Option<Via>) { which.None? || via == which.value }

  /** The submission that an event takes on, if any. */
  function Acting(w: World, e: Event): Option<Submission> {
    if e.Proceeds? && e.i < |w.submissions| then Some(w.submissions[e.i]) else None
  }

  function One(b: bool): nat { if b then 1 else 0 }

  predicate IsGranted(w: World, e: Event, which: Option<Via>) {
    var s := Acting(w, e);
    s.Some? && s.value.stage.Claims? && Counted(s.value.stage.via, which) && Grants(w.tables, s.value.stage.via)
  }

  predicate IsCompletion(w: World, e: Event, which: Option<Via>) {
    Acting(w, e).Some? && IsWaiting(Acting(w, e).value, which)
  }

  predicate IsWaiting(s: Submission, which: Option<Via>) { s.stage.Completes? && Counted(s.stage.via, which) }

  predicate Consumes(w: World, e: Event, pendingId: string) {
    var s := Acting(w, e);
    s.Some? && s.value.stage.Completes? && s.value.stage.ceremony.pendingId == pendingId
    && PendingAuth.Usable(w.tables.pending, pendingId, s.value.input.now)
  }

  predicate InTime(w: World, e: Event) {
    var s := Acting(w, e);
    s.Some? && s.value.stage.Completes? && Consumes(w, e, s.value.stage.ceremony.pendingId)
  }

  function GrantedIn(engine: Engine, w: World, events: seq<Event>, which: Option<Via>): nat
    decreases |events|
  {
    if events == [] then 0
    else One(IsGranted(w, events[0], which)) + GrantedIn(engine, Step(engine, w, events[0]), events[1..], which)
  }

  /** How many submissions authenticate. */
  function AuthenticatedIn(engine: Engine, w: World, events: seq<Event>, which: Option<Via>): nat
    decreases |events|
  {
    if events == [] then 0
    else One(IsCompletion(w, events[0], which) && InTime(w, events[0]))
         + AuthenticatedIn(engine, Step(engine, w, events[0]), events[1..], which)
  }

  /** How many have their claim granted, and find the ceremony gone. */
  function LateIn(engine: Engine, w: World, events: seq<Event>, which: Option<Via>): nat
    decreases |events|
  {
    if events == [] then 0
    else One(IsCompletion(w, events[0], which) && !InTime(w, events[0]))
         + LateIn(engine, Step(engine, w, events[0]), events[1..], which)
  }

  function Waiting(submissions: seq<Submission>, which: Option<Via>): nat {
    if submissions == [] then 0 else One(IsWaiting(submissions[0], which)) + Waiting(submissions[1..], which)
  }

  lemma {:induction false} WaitingAdds(submissions: seq<Submission>, s: Submission, which: Option<Via>)
    ensures Waiting(submissions + [s], which) == Waiting(submissions, which) + One(IsWaiting(s, which))
  {
    if submissions == [] {
      NothingAdded([s]);
      RestOfCons(s, []);
    } else {
      RestOfConcat(submissions, [s]);
      WaitingAdds(submissions[1..], s, which);
    }
  }

  lemma {:induction false} WaitingChanges(submissions: seq<Submission>, i: nat, s: Submission, which: Option<Via>)
    requires i < |submissions|
    ensures Waiting(submissions[i := s], which) + One(IsWaiting(submissions[i], which))
         == Waiting(submissions, which) + One(IsWaiting(s, which))
  {
    var later := submissions[i := s];
    if i == 0 {
      assert later[1..] == submissions[1..];
    } else {
      assert later[1..] == submissions[1..][i - 1 := s];
      WaitingChanges(submissions[1..], i - 1, s, which);
    }
  }

  lemma StepConserves(engine: Engine, w: World, e: Event, which: Option<Via>)
    ensures Waiting(w.submissions, which) + One(IsGranted(w, e, which))
         == Waiting(Step(engine, w, e).submissions, which) + One(IsCompletion(w, e, which))
  {
    match e
    case Submits(input) => WaitingAdds(w.submissions, Submission(input, Arrived), which);
    case Proceeds(i) =>
      if i < |w.submissions| {
        var s := w.submissions[i];
        WaitingChanges(w.submissions, i, Submission(s.input, NextStage(engine, w.tables, s)), which);
      }
    case Changes(_) =>
  }

  /**
   * Over any interleaving, for each time step and each recovery code, and for all together: every
   * claim that is granted authenticates one submission, or comes late, or waits to complete.
   */
  lemma {:induction false} ClaimsAreConserved(engine: Engine, w: World, events: seq<Event>, which: Option<Via>)
    ensures Waiting(w.submissions, which) + GrantedIn(engine, w, events, which)
         == Waiting(Run(engine, w, events).submissions, which)
            + AuthenticatedIn(engine, w, events, which) + LateIn(engine, w, events, which)
    decreases |events|
  {
    if events == [] {
    } else {
      StepConserves(engine, w, events[0], which);
      ClaimsAreConserved(engine, Step(engine, w, events[0]), events[1..], which);
    }
  }

  // ---- The run of each table ----

  function FactorOp(change: Option<Change>): seq<Factors.Op> {
    if change.Some? && change.value.OnFactors? then [change.value.factorOp] else []
  }

  function PendingOp(change: Option<Change>): seq<PendingAuth.Op> {
    if change.Some? && change.value.OnPending? then [change.value.pendingOp] else []
  }

  function CodesOp(change: Option<Change>): seq<RecoveryCodes.Op> {
    if change.Some? && change.value.OnCodes? then [change.value.codesOp] else []
  }

  function FactorOps(engine: Engine, w: World, events: seq<Event>): seq<Factors.Op>
    decreases |events|
  {
    if events == [] then []
    else FactorOp(Written(w, events[0])) + FactorOps(engine, Step(engine, w, events[0]), events[1..])
  }

  function PendingOps(engine: Engine, w: World, events: seq<Event>): seq<PendingAuth.Op>
    decreases |events|
  {
    if events == [] then []
    else PendingOp(Written(w, events[0])) + PendingOps(engine, Step(engine, w, events[0]), events[1..])
  }

  function CodesOps(engine: Engine, w: World, events: seq<Event>): seq<RecoveryCodes.Op>
    decreases |events|
  {
    if events == [] then []
    else CodesOp(Written(w, events[0])) + CodesOps(engine, Step(engine, w, events[0]), events[1..])
  }

  /** What the events do to the tables is a run of each table. */
  lemma {:induction false} TablesFollow(engine: Engine, w: World, events: seq<Event>)
    ensures var t := Run(engine, w, events).tables;
            t.factors == Factors.Run(w.tables.factors, FactorOps(engine, w, events))
            && t.pending == PendingAuth.Run(w.tables.pending, PendingOps(engine, w, events))
            && t.codes == RecoveryCodes.Run(w.tables.codes, CodesOps(engine, w, events))
    decreases |events|
  {
    if events == [] {
    } else {
      var change, later := Written(w, events[0]), Step(engine, w, events[0]);
      TablesFollow(engine, later, events[1..]);
      FirstOps(w.tables, change, FactorOps(engine, later, events[1..]), PendingOps(engine, later, events[1..]),
               CodesOps(engine, later, events[1..]));
    }
  }

  lemma FirstOps(t: Tables, change: Option<Change>, fs: seq<Factors.Op>, ps: seq<PendingAuth.Op>,
                 cs: seq<RecoveryCodes.Op>)
    ensures Factors.Run(t.factors, FactorOp(change) + fs) == Factors.Run(Write(t, change).factors, fs)
    ensures PendingAuth.Run(t.pending, PendingOp(change) + ps) == PendingAuth.Run(Write(t, change).pending, ps)
    ensures RecoveryCodes.Run(t.codes, CodesOp(change) + cs) == RecoveryCodes.Run(Write(t, change).codes, cs)
  {
    NothingAdded(fs);
    NothingAdded(ps);
    NothingAdded(cs);
    match change
    case None =>
    case Some(OnFactors(op)) => RestOfCons(op, fs);
    case Some(OnPending(op)) => RestOfCons(op, ps);
    case Some(OnCodes(op)) => RestOfCons(op, cs);
  }

  /** Every accepted time step of the run, of any factor. */
  function AcceptedIn(rows: Factors.FactorTable, ops: seq<Factors.Op>): nat
    decreases |ops|
  {
    if ops == [] then 0
    else One(ops[0].Advances? && Factors.Accepts(rows, ops[0].id, ops[0].timeStep))
         + AcceptedIn(Factors.Apply(rows, ops[0]), ops[1..])
  }

  /** Every recovery code used in the run, of any user, or of one with one digest. */
  function SpentIn(codes: RecoveryCodes.Codes, ops: seq<RecoveryCodes.Op>, which: Option<Via>): nat
    decreases |ops|
  {
    if ops == [] then 0
    else One(ops[0].Consumes? && Counted(ByCode(ops[0].userId, ops[0].digest), which)
             && RecoveryCodes.Usable(codes, ops[0].userId, ops[0].digest))
         + SpentIn(RecoveryCodes.Apply(codes, ops[0]), ops[1..], which)
  }

  /**
   * Over any interleaving: the submissions that authenticate are at most the time steps accepted and
   * the recovery codes used.
   */
  lemma AuthenticatedAtMostClaimed(engine: Engine, t: Tables, events: seq<Event>)
    ensures var w := World(t, []);
            AuthenticatedIn(engine, w, events, None)
              <= AcceptedIn(t.factors, FactorOps(engine, w, events))
                 + SpentIn(t.codes, CodesOps(engine, w, events), None)
  {
    ClaimsAreConserved(engine, World(t, []), events, None);
    GrantedIsClaimed(engine, World(t, []), events);
  }

  lemma {:induction false} GrantedIsClaimed(engine: Engine, w: World, events: seq<Event>)
    ensures GrantedIn(engine, w, events, None)
         <= AcceptedIn(w.tables.factors, FactorOps(engine, w, events))
            + SpentIn(w.tables.codes, CodesOps(engine, w, events), None)
    decreases |events|
  {
    if events == [] {
    } else {
      var later := Step(engine, w, events[0]);
      GrantedIsClaimed(engine, later, events[1..]);
      GrantIsWritten(w, events[0]);
      FirstFactorOp(w.tables, Written(w, events[0]), FactorOps(engine, later, events[1..]));
      FirstCodesOp(w.tables, Written(w, events[0]), CodesOps(engine, later, events[1..]), None);
    }
  }

  lemma GrantIsWritten(w: World, e: Event)
    ensures One(IsGranted(w, e, None)) <= One(WritesStep(w.tables, Written(w, e)))
                                          + One(WritesCode(w.tables, Written(w, e), None))
  {}

  /** The change makes a factor accept a time step. */
  predicate WritesStep(t: Tables, change: Option<Change>) {
    change.Some? && change.value.OnFactors? && change.value.factorOp.Advances?
    && Factors.Accepts(t.factors, change.value.factorOp.id, change.value.factorOp.timeStep)
  }

  /** The change uses a counted recovery code. */
  predicate WritesCode(t: Tables, change: Option<Change>, which: Option<Via>) {
    change.Some? && change.value.OnCodes? && change.value.codesOp.Consumes?
    && Counted(ByCode(change.value.codesOp.userId, change.value.codesOp.digest), which)
    && RecoveryCodes.Usable(t.codes, change.value.codesOp.userId, change.value.codesOp.digest)
  }

  lemma FirstFactorOp(t: Tables, change: Option<Change>, rest: seq<Factors.Op>)
    ensures AcceptedIn(t.factors, FactorOp(change) + rest) ==
            One(WritesStep(t, change)) + AcceptedIn(Write(t, change).factors, rest)
  {
    NothingAdded(rest);
    if FactorOp(change) != [] {
      RestOfCons(change.value.factorOp, rest);
    }
  }

  lemma FirstCodesOp(t: Tables, change: Option<Change>, rest: seq<RecoveryCodes.Op>, which: Option<Via>)
    ensures SpentIn(t.codes, CodesOp(change) + rest, which) ==
            One(WritesCode(t, change, which)) + SpentIn(Write(t, change).codes, rest, which)
  {
    NothingAdded(rest);
    if CodesOp(change) != [] {
      RestOfCons(change.value.codesOp, rest);
    }
  }

  // ---- No replay ----

  /** How often the step is in the list. */
  function Occurs(steps: seq<int>, timeStep: int): nat {
    if steps == [] then 0 else One(steps[0] == timeStep) + Occurs(steps[1..], timeStep)
  }

  lemma {:induction false} OccursOnce(steps: seq<int>, timeStep: int)
    requires Factors.Increasing(steps)
    ensures Occurs(steps, timeStep) == One(timeStep in steps)
  {
    if steps == [] {
    } else {
      assert Factors.Increasing(steps[1..]);
      OccursOnce(steps[1..], timeStep);
      assert timeStep in steps <==> steps[0] == timeStep || timeStep in steps[1..];
      assert forall k :: 0 <= k < |steps[1..]| ==> steps[0] < steps[1..][k];
    }
  }

  lemma FirstAccepted(t: Tables, change: Option<Change>, rest: seq<Factors.Op>, id: string, timeStep: int)
    ensures Occurs(Factors.AcceptedSteps(t.factors, FactorOp(change) + rest, id), timeStep) ==
            One(change == Some(OnFactors(Factors.Advances(id, timeStep))) && Factors.Accepts(t.factors, id, timeStep))
            + Occurs(Factors.AcceptedSteps(Write(t, change).factors, rest, id), timeStep)
  {
    var later := Factors.AcceptedSteps(Write(t, change).factors, rest, id);
    NothingAdded(rest);
    NothingAdded(later);
    if FactorOp(change) != [] {
      var op := change.value.factorOp;
      RestOfCons(op, rest);
      if op.Advances? {
        RestOfCons(op.timeStep, later);
      }
    }
  }

  lemma {:induction false} GrantedIsAccepted(engine: Engine, w: World, events: seq<Event>, id: string, timeStep: int)
    ensures GrantedIn(engine, w, events, Some(ByStep(id, timeStep)))
         <= Occurs(Factors.AcceptedSteps(w.tables.factors, FactorOps(engine, w, events), id), timeStep)
    decreases |events|
  {
    if events == [] {
    } else {
      var later := Step(engine, w, events[0]);
      GrantedIsAccepted(engine, later, events[1..], id, timeStep);
      FirstAccepted(w.tables, Written(w, events[0]), FactorOps(engine, later, events[1..]), id, timeStep);
    }
  }

  /**
   * Over any interleaving, with fresh factor ids: a time step of a factor authenticates at most one
   * submission, and none at all if it is not newer than the watermark at the start.
   */
  lemma StepAuthenticatesOnce(engine: Engine, t: Tables, events: seq<Event>, id: string, timeStep: int)
    requires Distinct(t.factors) && Factors.FreshRun(t.factors, FactorOps(engine, World(t, []), events))
    ensures var n := AuthenticatedIn(engine, World(t, []), events, Some(ByStep(id, timeStep)));
            n <= 1 && (n == 1 && Factors.Watermark(t.factors, id).Some? ==>
                         Factors.Watermark(t.factors, id).value < timeStep)
  {
    var w := World(t, []);
    var steps := Factors.AcceptedSteps(t.factors, FactorOps(engine, w, events), id);
    ClaimsAreConserved(engine, w, events, Some(ByStep(id, timeStep)));
    GrantedIsAccepted(engine, w, events, id, timeStep);
    Factors.AcceptedStepsIncrease(t.factors, FactorOps(engine, w, events), id);
    OccursOnce(steps, timeStep);
  }

  // ---- No recovery code more often than it was issued ----

  /** How many codes with the digest the run gives to the user. */
  function IssuedIn(ops: seq<RecoveryCodes.Op>, userId: string, digest: string): nat {
    if ops == [] then 0
    else (if ops[0].Replaces? && ops[0].userId == userId then RecoveryCodes.CountNew(ops[0].codes, Some(digest)) else 0)
         + IssuedIn(ops[1..], userId, digest)
  }

  function Unused(codes: RecoveryCodes.Codes, userId: string, digest: string): nat {
    RecoveryCodes.CountUnused(RecoveryCodes.CodesOf(codes, userId), Some(digest))
  }

  lemma SpendingStep(codes: RecoveryCodes.Codes, op: RecoveryCodes.Op, userId: string, digest: string)
    ensures Unused(RecoveryCodes.Apply(codes, op), userId, digest)
            + One(op.Consumes? && Counted(ByCode(op.userId, op.digest), Some(ByCode(userId, digest)))
                  && RecoveryCodes.Usable(codes, op.userId, op.digest))
         <= Unused(codes, userId, digest) + IssuedIn([op], userId, digest)
  {
    var which := Some(digest);
    var tally := RecoveryCodes.Tally(Unused(codes, userId, digest), 0);
    RecoveryCodes.BalanceStep(codes, op, userId, which, tally);
    RestOfCons(op, []);
  }

  lemma {:induction false} SpentAtMostIssued(codes: RecoveryCodes.Codes, ops: seq<RecoveryCodes.Op>, userId: string,
                                             digest: string)
    ensures SpentIn(codes, ops, Some(ByCode(userId, digest)))
         <= Unused(codes, userId, digest) + IssuedIn(ops, userId, digest)
    decreases |ops|
  {
    if ops == [] {
    } else {
      SpendingStep(codes, ops[0], userId, digest);
      RestOfCons(ops[0], []);
      SpentAtMostIssued(RecoveryCodes.Apply(codes, ops[0]), ops[1..], userId, digest);
    }
  }

  lemma {:induction false} GrantedIsSpent(engine: Engine, w: World, events: seq<Event>, userId: string, digest: string)
    ensures GrantedIn(engine, w, events, Some(ByCode(userId, digest)))
         <= SpentIn(w.tables.codes, CodesOps(engine, w, events), Some(ByCode(userId, digest)))
    decreases |events|
  {
    if events == [] {
    } else {
      var later := Step(engine, w, events[0]);
      GrantedIsSpent(engine, later, events[1..], userId, digest);
      FirstCodesOp(w.tables, Written(w, events[0]), CodesOps(engine, later, events[1..]), Some(ByCode(userId, digest)));
    }
  }

  /**
   * Over any interleaving: a recovery code authenticates at most as many submissions as there are
   * unused codes with its digest at the start, and as the run gives to the user.
   */
  lemma CodeAuthenticatesAtMostIssued(engine: Engine, t: Tables, events: seq<Event>, userId: string, digest: string)
    ensures AuthenticatedIn(engine, World(t, []), events, Some(ByCode(userId, digest)))
         <= Unused(t.codes, userId, digest) + IssuedIn(CodesOps(engine, World(t, []), events), userId, digest)
  {
    var w := World(t, []);
    ClaimsAreConserved(engine, w, events, Some(ByCode(userId, digest)));
    GrantedIsSpent(engine, w, events, userId, digest);
    SpentAtMostIssued(t.codes, CodesOps(engine, w, events), userId, digest);
  }

  // ---- One authentication for each ceremony ----

  /** How many submissions authenticate by the ceremony. */
  function CompletedIn(engine: Engine, w: World, events: seq<Event>, pendingId: string): nat
    decreases |events|
  {
    if events == [] then 0
    else One(Consumes(w, events[0], pendingId))
         + CompletedIn(engine, Step(engine, w, events[0]), events[1..], pendingId)
  }

  lemma FirstPendingOp(t: Tables, change: Option<Change>, rest: seq<PendingAuth.Op>, pendingId: string)
    ensures PendingAuth.Successes(t.pending, PendingOp(change) + rest, pendingId) ==
            One(change.Some? && change.value.OnPending? && change.value.pendingOp.Consumes?
                && change.value.pendingOp.id == pendingId
                && PendingAuth.Usable(t.pending, pendingId, change.value.pendingOp.now))
            + PendingAuth.Successes(Write(t, change).pending, rest, pendingId)
  {
    NothingAdded(rest);
    if PendingOp(change) != [] {
      RestOfCons(change.value.pendingOp, rest);
    }
  }

  lemma {:induction false} CompletedIsSuccess(engine: Engine, w: World, events: seq<Event>, pendingId: string)
    ensures CompletedIn(engine, w, events, pendingId)
         <= PendingAuth.Successes(w.tables.pending, PendingOps(engine, w, events), pendingId)
    decreases |events|
  {
    if events == [] {
    } else {
      var later := Step(engine, w, events[0]);
      CompletedIsSuccess(engine, later, events[1..], pendingId);
      FirstPendingOp(w.tables, Written(w, events[0]), PendingOps(engine, later, events[1..]), pendingId);
    }
  }

  /** Over any interleaving, with fresh ceremony ids: a ceremony authenticates at most one submission. */
  lemma CeremonyAuthenticatesOnce(engine: Engine, t: Tables, events: seq<Event>, pendingId: string)
    requires PendingAuth.Lifecycle.Valid(t.pending)
    requires PendingAuth.FreshRun(t.pending, PendingOps(engine, World(t, []), events))
    ensures CompletedIn(engine, World(t, []), events, pendingId) <= 1
  {
    var w := World(t, []);
    CompletedIsSuccess(engine, w, events, pendingId);
    PendingAuth.ConsumedAtMostOnce(t.pending, PendingOps(engine, w, events), pendingId);
  }
}
