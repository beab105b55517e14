/**
 * Pending authentications: the password was accepted and the second factor is due. They are
 * one-time rows that also count wrong codes, and a submission of a code is a read of the row, then
 * a decision, then one write.
 */
module PendingAuth {
  import opened Text
  import opened Rows
  import Lifecycle

  datatype Attempts = Attempts(credentialDigest: string, failedAttempts: nat, maxAttempts: int,
      authenticationMethod: string)

  type Pending = Lifecycle.Row<Attempts>
  type PendingTable = Lifecycle.Table<Attempts>

  predicate Usable(rows: PendingTable, id: string, now: int) { Lifecycle.Consumable(rows, id, now) }

  // ---- The store's operations as functions ----

  function OneMore(row: Pending): Pending {
    row.(value := row.value.(payload := row.value.payload.(failedAttempts := row.value.payload.failedAttempts + 1)))
  }

  function RecordFailed(rows: PendingTable, id: string): PendingTable {
    if Has(rows, id) then rows[Find(rows, id) := OneMore(rows[Find(rows, id)])] else rows
  }

  datatype Outcome = Outcome(failedAttempts: nat, exhausted: bool)

  /** What `recordFailedAttempt` returns. */
  function OutcomeOf(rows: PendingTable, id: string): Outcome {
    if !Has(rows, id) then Outcome(0, true)
    else
      var attempts := Get(rows, id).payload;
      Outcome(attempts.failedAttempts + 1, attempts.failedAttempts + 1 >= attempts.maxAttempts)
  }

  predicate Exhausted(row: Pending) { row.value.payload.failedAttempts >= row.value.payload.maxAttempts }

  datatype Op =
    | Begins(id: string, userId: string, credentialDigest: string, createdAt: int, expiresAt: int, maxAttempts: int,
        way: string)
    | Fails(id: string)
    | Consumes(id: string, now: int)
    | RevokesAll(userId: string, now: int)

  function Apply(rows: PendingTable, op: Op): PendingTable {
    match op
    case Begins(id, userId, digest, createdAt, expiresAt, maxAttempts, way) =>
      Lifecycle.Create(rows, id, userId, createdAt, expiresAt, Attempts(digest, 0, maxAttempts, way))
    case Fails(id) => RecordFailed(rows, id)
    case Consumes(id, now) => Lifecycle.Consume(rows, id, now)
    case RevokesAll(userId, now) => Lifecycle.CloseOpen(rows, userId, now)
  }

  function Run(rows: PendingTable, ops: seq<Op>): PendingTable
    decreases |ops|
  {
    if ops == [] then rows else Run(Apply(rows, ops[0]), ops[1..])
  }

  lemma {:induction false} RunOneMore(rows: PendingTable, ops: seq<Op>, op: Op)
    ensures Run(rows, ops + [op]) == Apply(Run(rows, ops), op)
    decreases |ops|
  {
    if ops == [] {
      assert [op][1..] == [];
    } else {
      assert (ops + [op])[1..] == ops[1..] + [op];
      RunOneMore(Apply(rows, ops[0]), ops[1..], op);
    }
  }

  predicate Fresh(rows: PendingTable, op: Op) { op.Begins? ==> !Has(rows, op.id) }

  predicate FreshRun(rows: PendingTable, ops: seq<Op>)
    decreases |ops|
  {
    ops == [] || (Fresh(rows, ops[0]) && FreshRun(Apply(rows, ops[0]), ops[1..]))
  }

  // ---- What each operation changes ----

  lemma BeginAdds(rows: PendingTable, id: string, userId: string, digest: string, createdAt: int, expiresAt: int,
                  maxAttempts: int, way: string)
    requires forall k :: 0 <= k < |rows| ==> rows[k].id != id
    ensures var payload := Attempts(digest, 0, maxAttempts, way);
            Apply(rows, Begins(id, userId, digest, createdAt, expiresAt, maxAttempts, way)) ==
            rows + [Entry(id, Lifecycle.Life(userId, createdAt, expiresAt, None, None, payload))]
  {
    Lifecycle.CreateAdds(rows, id, userId, createdAt, expiresAt, Attempts(digest, 0, maxAttempts, way));
  }

  /**
   * A failure adds one to the attempts of one ceremony, whatever became of it, and reports whether that
   * reaches the ceiling. For an unknown ceremony it writes nothing and reports exhaustion.
   */
  lemma FailureMarks(rows: PendingTable, id: string)
    requires Distinct(rows)
    ensures var later, outcome := RecordFailed(rows, id), OutcomeOf(rows, id);
            && ((forall k :: 0 <= k < |rows| ==> rows[k].id != id) ==> later == rows && outcome == Outcome(0, true))
            && ChangedAt(rows, later, id)
            && forall k :: 0 <= k < |rows| && rows[k].id == id ==>
                 var a := rows[k].value.payload;
                 && later[k].value == rows[k].value.(payload := a.(failedAttempts := a.failedAttempts + 1))
                 && outcome == Outcome(a.failedAttempts + 1, a.maxAttempts <= a.failedAttempts + 1)
  {
    forall k | 0 <= k < |rows| && rows[k].id == id ensures Find(rows, id) == k {
      FindIs(rows, k);
    }
  }

  // ---- The life of the rows ----

  function Payloads(rows: PendingTable): seq<Attempts> {
    seq(|rows|, i requires 0 <= i < |rows| => rows[i].value.payload)
  }

  /** The same step as a step of a one-time row's life. */
  function AsLife(rows: PendingTable, op: Op): Lifecycle.Op<Attempts> {
    match op
    case Begins(id, userId, digest, createdAt, expiresAt, maxAttempts, way) =>
      Lifecycle.Creates(id, userId, createdAt, expiresAt, Attempts(digest, 0, maxAttempts, way))
    case Fails(id) => Lifecycle.Amends(Payloads(RecordFailed(rows, id)))
    case Consumes(id, now) => Lifecycle.Consumes(id, now)
    case RevokesAll(userId, now) => Lifecycle.Closes(userId, now)
  }

  function AsLives(rows: PendingTable, ops: seq<Op>): (lives: seq<Lifecycle.Op<Attempts>>)
    decreases |ops|
  {
    if ops == [] then [] else [AsLife(rows, ops[0])] + AsLives(Apply(rows, ops[0]), ops[1..])
  }

  lemma StepIsLife(rows: PendingTable, op: Op)
    ensures Apply(rows, op) == Lifecycle.Apply(rows, AsLife(rows, op))
    ensures Fresh(rows, op) == Lifecycle.Fresh(rows, AsLife(rows, op))
  {
    if op.Fails? {
      var later := Apply(rows, op);
      assert |later| == |rows|;
      assert Lifecycle.Apply(rows, AsLife(rows, op)) == later;
    }
  }

  /** How often the run consumes the row successfully. */
  function Successes(rows: PendingTable, ops: seq<Op>, id: string): nat
    decreases |ops|
  {
    if ops == [] then 0
    else (if ops[0].Consumes? && ops[0].id == id && Usable(rows, id, ops[0].now) then 1 else 0)
         + Successes(Apply(rows, ops[0]), ops[1..], id)
  }

  lemma {:induction false} RunIsLife(rows: PendingTable, ops: seq<Op>, id: string)
    ensures Run(rows, ops) == Lifecycle.Run(rows, AsLives(rows, ops))
    ensures FreshRun(rows, ops) == Lifecycle.FreshRun(rows, AsLives(rows, ops))
    ensures Successes(rows, ops, id) == Lifecycle.Successes(rows, AsLives(rows, ops), id)
    decreases |ops|
  {
    if ops == [] {
    } else {
      var life, lives := AsLife(rows, ops[0]), AsLives(Apply(rows, ops[0]), ops[1..]);
      assert AsLives(rows, ops)[1..] == lives;
      StepIsLife(rows, ops[0]);
      RunIsLife(Apply(rows, ops[0]), ops[1..], id);
    }
  }

  /**
   * Over any interleaving of store operations with fresh ids, wrong codes included, a ceremony is
   * consumed at most once, and a revoked one not at all.
   */
  lemma ConsumedAtMostOnce(rows: PendingTable, ops: seq<Op>, id: string)
    requires Lifecycle.Valid(rows) && FreshRun(rows, ops)
    ensures Successes(rows, ops, id) <= 1
    ensures Has(rows, id) && Get(rows, id).closedAt.Some? ==> Successes(rows, ops, id) == 0
  {
    RunIsLife(rows, ops, id);
    Lifecycle.ConsumedAtMostOnce(rows, AsLives(rows, ops), id);
    if Has(rows, id) && Get(rows, id).closedAt.Some? {
      Lifecycle.NeverAfterClosing(rows, AsLives(rows, ops), Find(rows, id));
    }
  }

  // ---- Every wrong code costs an attempt ----

  function CountFails(ops: seq<Op>, id: string): nat {
    if ops == [] then 0 else (if ops[0] == Fails(id) then 1 else 0) + CountFails(ops[1..], id)
  }

  lemma AttemptsStep(rows: PendingTable, op: Op, id: string)
    requires Distinct(rows) && Fresh(rows, op) && Has(rows, id)
    ensures var later := Apply(rows, op);
            Distinct(later) && Has(later, id)
            && Get(later, id).payload.maxAttempts == Get(rows, id).payload.maxAttempts
            && Get(later, id).payload.failedAttempts
               == Get(rows, id).payload.failedAttempts + if op == Fails(id) then 1 else 0
  {
    var later, i := Apply(rows, op), Find(rows, id);
    StepIsLife(rows, op);
    Lifecycle.ApplyAdvances(rows, AsLife(rows, op));
    Lifecycle.ApplyKeepsDistinct(rows, AsLife(rows, op));
    assert Lifecycle.Advanced(rows[i], later[i]);
    FindIs(later, i);
  }

  /** However they interleave, n wrong codes cost n attempts. */
  lemma {:induction false} EveryFailureCounts(rows: PendingTable, ops: seq<Op>, id: string)
    requires Distinct(rows) && FreshRun(rows, ops) && Has(rows, id)
    ensures var later := Run(rows, ops);
            Has(later, id) && Get(later, id).payload.maxAttempts == Get(rows, id).payload.maxAttempts
            && Get(later, id).payload.failedAttempts == Get(rows, id).payload.failedAttempts + CountFails(ops, id)
    decreases |ops|
  {
    if ops == [] {
    } else {
      AttemptsStep(rows, ops[0], id);
      EveryFailureCounts(Apply(rows, ops[0]), ops[1..], id);
    }
  }

  // ---- Submissions ----

  /** What a submission does after reading the row: nothing, one failure, or the consumption. */
  function Decide(rows: PendingTable, id: string, now: int, correct: bool): seq<Op> {
    if !Usable(rows, id, now) || Exhausted(rows[Find(rows, id)]) then []
    else if correct then [Consumes(id, now)]
    else [Fails(id)]
  }

  datatype Request =
    | Login(begin: Op)
    | Submission(id: string, now: int, correct: bool)
    | Reset(userId: string, now: int)

  function Serve(rows: PendingTable, request: Request): PendingTable {
    match request
    case Login(begin) => if begin.Begins? then Apply(rows, begin) else rows
    case Submission(id, now, correct) => Run(rows, Decide(rows, id, now, correct))
    case Reset(userId, now) => Apply(rows, RevokesAll(userId, now))
  }

  /**
   * A submission writes nothing if its ceremony is over, expired or out of attempts; otherwise a right
   * code consumes it and a wrong one costs an attempt.
   */
  lemma SubmissionMarks(rows: PendingTable, k: nat, now: int, correct: bool)
    requires Distinct(rows) && k < |rows|
    ensures var later, life := Serve(rows, Submission(rows[k].id, now, correct)), rows[k].value;
            var a := life.payload;
            ChangedAt(rows, later, rows[k].id)
            && later[k].value ==
               if life.consumedAt.Some? || life.closedAt.Some? || life.expiresAt <= now
                    || a.maxAttempts <= a.failedAttempts then life
               else if correct then life.(consumedAt := Some(now))
               else life.(payload := a.(failedAttempts := a.failedAttempts + 1))
  {
    var id := rows[k].id;
    FindIs(rows, k);
    if Decide(rows, id, now, correct) == [] {
    } else if correct {
      OneStep(rows, Consumes(id, now));
      Lifecycle.ConsumeMarks(rows, id, now);
    } else {
      OneStep(rows, Fails(id));
      FailureMarks(rows, id);
    }
  }

  /** A login adds its ceremony, and a reset closes the open ceremonies of one user. */
  lemma LoginAndResetMark(rows: PendingTable, begin: Op, userId: string, now: int)
    requires begin.Begins? && forall k :: 0 <= k < |rows| ==> rows[k].id != begin.id
    ensures var payload := Attempts(begin.credentialDigest, 0, begin.maxAttempts, begin.way);
            Serve(rows, Login(begin)) ==
            rows + [Entry(begin.id,
                Lifecycle.Life(begin.userId, begin.createdAt, begin.expiresAt, None, None, payload))]
    ensures var later := Serve(rows, Reset(userId, now));
            |later| == |rows|
            && forall k :: 0 <= k < |rows| ==>
                 var life := rows[k].value;
                 later[k].id == rows[k].id
                 && later[k].value == if life.userId == userId && life.consumedAt == None && life.closedAt == None
                                        then life.(closedAt := Some(now)) else life
  {
    BeginAdds(rows, begin.id, begin.userId, begin.credentialDigest, begin.createdAt, begin.expiresAt, begin.maxAttempts,
              begin.way);
    Lifecycle.CloseOpenMarks(rows, userId, now);
  }

  function ServeAll(rows: PendingTable, requests: seq<Request>): PendingTable
    decreases |requests|
  {
    if requests == [] then rows else ServeAll(Serve(rows, requests[0]), requests[1..])
  }

  /** No more failures than allowed, and never a success at the ceiling. */
  predicate Bounded(row: Pending) {
    var attempts := row.value.payload;
    && (attempts.failedAttempts > 0 ==> attempts.failedAttempts <= attempts.maxAttempts)
    && (row.value.consumedAt.Some? ==> attempts.failedAttempts < attempts.maxAttempts)
  }

  predicate AllBounded(rows: PendingTable) { forall i :: 0 <= i < |rows| ==> Bounded(rows[i]) }

  lemma OneStep(rows: PendingTable, op: Op)
    ensures Run(rows, [op]) == Apply(rows, op)
  {
    assert [op][1..] == [];
  }

  lemma ServeKeepsBounds(rows: PendingTable, request: Request)
    requires AllBounded(rows)
    ensures AllBounded(Serve(rows, request))
  {
    if request.Submission? && Decide(rows, request.id, request.now, request.correct) != [] {
      OneStep(rows, if request.correct then Consumes(request.id, request.now) else Fails(request.id));
    }
  }

  /** If each request is served as a whole, no ceremony ever gets past its ceiling. */
  lemma {:induction false} AttemptsStayBounded(rows: PendingTable, requests: seq<Request>)
    requires AllBounded(rows)
    ensures AllBounded(ServeAll(rows, requests))
    decreases |requests|
  {
    if requests == [] {
    } else {
      ServeKeepsBounds(rows, requests[0]);
      AttemptsStayBounded(Serve(rows, requests[0]), requests[1..]);
    }
  }

  /** The store itself has no ceiling: to `consumeIfUsable` it makes no difference how many attempts have failed. */
  lemma UsableStays(rows: PendingTable, id: string, now: int)
    requires Distinct(rows)
    ensures Usable(RecordFailed(rows, id), id, now) <==> Usable(rows, id, now)
  {
    if Has(rows, id) {
      FindIs(RecordFailed(rows, id), Find(rows, id));
    }
  }

  // ---- When the bound holds over a run of store operations ----

  /** A consumption or a failure below the ceiling; a failure of a consumed row must leave it below. */
  predicate Below(rows: PendingTable, op: Op) {
    match op
    case Consumes(id, now) => Usable(rows, id, now) ==> !Exhausted(rows[Find(rows, id)])
    case Fails(id) =>
      Has(rows, id) ==>
        var row := rows[Find(rows, id)];
        !Exhausted(row)
        && (row.value.consumedAt.Some? ==> row.value.payload.failedAttempts + 1 < row.value.payload.maxAttempts)
    case _ => true
  }

  predicate BelowRun(rows: PendingTable, ops: seq<Op>)
    decreases |ops|
  {
    ops == [] || (Below(rows, ops[0]) && BelowRun(Apply(rows, ops[0]), ops[1..]))
  }

  predicate BoundedThroughout(rows: PendingTable, ops: seq<Op>)
    decreases |ops|
  {
    AllBounded(rows) && (ops != [] ==> BoundedThroughout(Apply(rows, ops[0]), ops[1..]))
  }

  lemma BoundedStep(rows: PendingTable, op: Op)
    requires AllBounded(rows)
    ensures AllBounded(Apply(rows, op)) <==> Below(rows, op)
  {
    match op
    case Begins(_, _, _, _, _, _, _) =>
    case Fails(id) =>
      assert Has(rows, id) ==> Apply(rows, op)[Find(rows, id)] == OneMore(rows[Find(rows, id)]);
    case Consumes(id, now) =>
      assert Usable(rows, id, now) ==> (Bounded(Apply(rows, op)[Find(rows, id)]) <==> !Exhausted(rows[Find(rows, id)]));
    case RevokesAll(_, _) =>
  }

  /**
   * Over any interleaving of store operations: no ceremony ever gets past its ceiling exactly if each
   * consumption and each failure meets a row that is still below it, by more than one attempt for a
   * failure that meets a consumed row.
   */
  lemma {:induction false} BoundedExactlyIfBelow(rows: PendingTable, ops: seq<Op>)
    requires AllBounded(rows)
    ensures BoundedThroughout(rows, ops) <==> BelowRun(rows, ops)
    decreases |ops|
  {
    if ops == [] {
    } else {
      BoundedStep(rows, ops[0]);
      if Below(rows, ops[0]) {
        BoundedExactlyIfBelow(Apply(rows, ops[0]), ops[1..]);
      }
    }
  }

  /** The ceremony is within its bound before and after every operation of the run. */
  predicate CeremonyBounded(rows: PendingTable, ops: seq<Op>, id: string)
    decreases |ops|
  {
    Has(rows, id) && Bounded(rows[Find(rows, id)]) && (ops != [] ==> CeremonyBounded(Apply(rows, ops[0]), ops[1..], id))
  }

  predicate IsConsumed(rows: PendingTable, id: string) { Has(rows, id) && Get(rows, id).consumedAt.Some? }

  lemma ConsumedStep(rows: PendingTable, op: Op, id: string)
    requires Lifecycle.Valid(rows) && Fresh(rows, op)
    ensures Lifecycle.Valid(Apply(rows, op))
    ensures IsConsumed(Apply(rows, op), id) <==>
              IsConsumed(rows, id) || (op.Consumes? && op.id == id && Usable(rows, id, op.now))
  {
    StepIsLife(rows, op);
    Lifecycle.ApplyKeepsValid(rows, AsLife(rows, op));
    Lifecycle.FlagStep(rows, AsLife(rows, op), id);
  }

  /** The attempts that have failed by the end of the run, counted in its operations. */
  function AttemptsBy(rows: PendingTable, ops: seq<Op>, id: string): nat
    requires Has(rows, id)
  {
    Get(rows, id).payload.failedAttempts + CountFails(ops, id)
  }

  /**
   * For one ceremony, counting operations is enough: it stays within its bound throughout exactly if
   * its failures in the whole run do not exceed the ceiling, and do not reach it if it is consumed.
   */
  lemma {:induction false} BoundedExactlyByCounting(rows: PendingTable, ops: seq<Op>, id: string)
    requires Lifecycle.Valid(rows) && FreshRun(rows, ops) && Has(rows, id)
    ensures var n, ceiling := AttemptsBy(rows, ops, id), Get(rows, id).payload.maxAttempts;
            CeremonyBounded(rows, ops, id) <==>
              (n > 0 ==> n <= ceiling) && (IsConsumed(rows, id) || Successes(rows, ops, id) > 0 ==> n < ceiling)
    decreases |ops|
  {
    if ops == [] {
    } else {
      AttemptsStep(rows, ops[0], id);
      ConsumedStep(rows, ops[0], id);
      BoundedExactlyByCounting(Apply(rows, ops[0]), ops[1..], id);
    }
  }

  /** Some consumption succeeds at a row that has reached its ceiling. */
  predicate SuccessAtCeiling(rows: PendingTable, ops: seq<Op>, id: string)
    decreases |ops|
  {
    ops != []
    && ((ops[0].Consumes? && ops[0].id == id && Usable(rows, id, ops[0].now) && Exhausted(rows[Find(rows, id)]))
        || SuccessAtCeiling(Apply(rows, ops[0]), ops[1..], id))
  }

  /** How many attempts fail in the run before the first consumption that succeeds, or in all. */
  function FailsBeforeSuccess(rows: PendingTable, ops: seq<Op>, id: string): nat
    decreases |ops|
  {
    if ops == [] || (ops[0].Consumes? && ops[0].id == id && Usable(rows, id, ops[0].now)) then 0
    else (if ops[0] == Fails(id) then 1 else 0) + FailsBeforeSuccess(Apply(rows, ops[0]), ops[1..], id)
  }

  lemma {:induction false} NoLaterSuccess(rows: PendingTable, ops: seq<Op>, id: string)
    requires Lifecycle.Valid(rows) && FreshRun(rows, ops) && IsConsumed(rows, id)
    ensures !SuccessAtCeiling(rows, ops, id) && Successes(rows, ops, id) == 0
    decreases |ops|
  {
    if ops == [] {
    } else {
      ConsumedStep(rows, ops[0], id);
      NoLaterSuccess(Apply(rows, ops[0]), ops[1..], id);
    }
  }

  /**
   * A ceremony succeeds after its attempts are exhausted exactly if it succeeds at all and as many
   * attempts as allowed have failed before.
   */
  lemma {:induction false} LateSuccessExactlyByCounting(rows: PendingTable, ops: seq<Op>, id: string)
    requires Lifecycle.Valid(rows) && FreshRun(rows, ops) && Has(rows, id)
    ensures SuccessAtCeiling(rows, ops, id) <==>
              Successes(rows, ops, id) > 0
              && Get(rows, id).payload.failedAttempts + FailsBeforeSuccess(rows, ops, id)
                 >= Get(rows, id).payload.maxAttempts
    decreases |ops|
  {
    if ops == [] {
    } else {
      AttemptsStep(rows, ops[0], id);
      ConsumedStep(rows, ops[0], id);
      if ops[0].Consumes? && ops[0].id == id && Usable(rows, id, ops[0].now) {
        NoLaterSuccess(Apply(rows, ops[0]), ops[1..], id);
      } else {
        LateSuccessExactlyByCounting(Apply(rows, ops[0]), ops[1..], id);
      }
    }
  }

  /** The ceremony can be consumed, and has one attempt left. */
  predicate OneLeft(rows: PendingTable, id: string, now: int) {
    Usable(rows, id, now) && Get(rows, id).payload.failedAttempts == Get(rows, id).payload.maxAttempts - 1
  }

  /** Two overlapping wrong codes: both read a row with one attempt left, and that attempt fails twice. */
  lemma OverlapFailsTooOften(read: PendingTable, id: string, now: int)
    requires Distinct(read) && OneLeft(read, id, now)
    ensures var wrong := Decide(read, id, now, false);
            var later := Run(Run(read, wrong), wrong);
            Has(later, id) && Get(later, id).payload.failedAttempts == Get(later, id).payload.maxAttempts + 1
  {
    OneStep(read, Fails(id));
    var failed := Apply(read, Fails(id));
    OneStep(failed, Fails(id));
    AttemptsStep(read, Fails(id), id);
    AttemptsStep(failed, Fails(id), id);
  }

  /**
   * Two overlapping submissions get there: both read a row with one attempt left, the wrong code is
   * recorded and exhausts it, and the right code authenticates all the same.
   */
  lemma OverlapPassesTheCeiling(read: PendingTable, id: string, now: int)
    requires Distinct(read) && OneLeft(read, id, now)
    ensures var wrong, right := Decide(read, id, now, false), Decide(read, id, now, true);
            OutcomeOf(read, id).exhausted && Successes(Run(read, wrong), right, id) == 1
            && SuccessAtCeiling(Run(read, wrong), right, id)
  {
    OneStep(read, Fails(id));
    var failed := Apply(read, Fails(id));
    AttemptsStep(read, Fails(id), id);
    UsableStays(read, id, now);
    OneSuccess(failed, id, now);
  }

  lemma OneSuccess(rows: PendingTable, id: string, now: int)
    ensures Successes(rows, [Consumes(id, now)], id) == if Usable(rows, id, now) then 1 else 0
  {
    assert [Consumes(id, now)][1..] == [];
  }
}
