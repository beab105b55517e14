/**
 * One-time rows: the verification challenges, the reset challenges and the pending authentications
 * all live the same life. A row is created open; it can be consumed once, before it expires, or
 * closed (superseded, revoked), never both. A table keeps its rows in order of insertion.
 */
module Lifecycle {
  import opened Text
  import opened Rows

  datatype Life<P> = Life(userId: string, createdAt: int, expiresAt: int,
                          consumedAt: Option<int>, closedAt: Option<int>, payload: P)

  type Row<P> = Entry<Life<P>>
  type Table<P> = seq<Row<P>>

  /** Neither consumed nor closed, expired or not. */
  predicate Open<P>(row: Row<P>) { row.value.consumedAt.None? && row.value.closedAt.None? }

  predicate ActiveAt<P>(row: Row<P>, now: int) { Open(row) && now < row.value.expiresAt }

  // ---- The operations as functions ----

  function Create<P>(rows: Table<P>, id: string, userId: string, createdAt: int, expiresAt: int, payload: P): Table<P> {
    Put(rows, id, Life(userId, createdAt, expiresAt, None, None, payload))
  }

  predicate Consumable<P>(rows: Table<P>, id: string, now: int) {
    Has(rows, id) && ActiveAt(rows[Find(rows, id)], now)
  }

  function Consume<P>(rows: Table<P>, id: string, now: int): Table<P> {
    if Consumable(rows, id, now)
    then Put(rows, id, Get(rows, id).(consumedAt := Some(now)))
    else rows
  }

  predicate OpenFor<P>(row: Row<P>, userId: string) { row.value.userId == userId && Open(row) }

  function Closed<P>(row: Row<P>, now: int): Row<P> { row.(value := row.value.(closedAt := Some(now))) }

  function CloseOpen<P>(rows: Table<P>, userId: string, now: int): Table<P> {
    seq(|rows|, i requires 0 <= i < |rows| =>
      if OpenFor(rows[i], userId) then Closed(rows[i], now) else rows[i])
  }

  function CountOpen<P>(rows: Table<P>, userId: string): nat {
    if rows == [] then 0
    else CountOpen(rows[..|rows| - 1], userId) + if OpenFor(rows[|rows| - 1], userId) then 1 else 0
  }

  /** The loop of `supersedeActiveForUser` and `revokeAllForUser`. */
  method CloseOpenRows<P>(rows: Table<P>, userId: string, now: int) returns (closed: Table<P>, count: nat)
    ensures closed == CloseOpen(rows, userId, now) && count == CountOpen(rows, userId)
  {
    closed, count := rows, 0;
    for i := 0 to |rows|
      invariant |closed| == |rows| && count == CountOpen(rows[..i], userId)
      invariant closed[..i] == CloseOpen(rows, userId, now)[..i] && closed[i..] == rows[i..]
    {
      assert rows[..i + 1][..i] == rows[..i];
      assert closed[i] == closed[i..][0] == rows[i..][0];
      if closed[i].value.userId == userId && closed[i].value.consumedAt.None? && closed[i].value.closedAt.None? {
        closed := closed[i := Closed(closed[i], now)];
        count := count + 1;
      }
      assert closed[i + 1..] == rows[i + 1..];
    }
    assert rows[..|rows|] == rows && closed[..|rows|] == closed;
  }

  // ---- What each operation changes ----

  lemma CreateAdds<P>(rows: Table<P>, id: string, userId: string, createdAt: int, expiresAt: int, payload: P)
    requires forall k :: 0 <= k < |rows| ==> rows[k].id != id
    ensures Create(rows, id, userId, createdAt, expiresAt, payload) ==
            rows + [Entry(id, Life(userId, createdAt, expiresAt, None, None, payload))]
  {}

  /** What may be consumed: a row that is neither consumed nor closed, before it expires. */
  lemma ConsumableExactly<P>(rows: Table<P>, k: nat, now: int)
    requires Distinct(rows) && k < |rows|
    ensures var life := rows[k].value;
            Consumable(rows, rows[k].id, now) <==>
              life.consumedAt == None && life.closedAt == None && now < life.expiresAt
  {
    FindIs(rows, k);
  }

  /** A consumption writes its moment into one row that may be consumed, and nothing else. */
  lemma ConsumeMarks<P>(rows: Table<P>, id: string, now: int)
    requires Distinct(rows)
    ensures var later := Consume(rows, id, now);
            ChangedAt(rows, later, id)
            && forall k :: 0 <= k < |rows| && rows[k].id == id ==>
                 var life := rows[k].value;
                 later[k].value == if life.consumedAt == None && life.closedAt == None && now < life.expiresAt
                                     then life.(consumedAt := Some(now)) else life
  {
    forall k | 0 <= k < |rows| && rows[k].id == id ensures Find(rows, id) == k {
      FindIs(rows, k);
    }
  }

  /** Closing writes its moment into the open rows of one user, and leaves all other rows as they are. */
  lemma CloseOpenMarks<P>(rows: Table<P>, userId: string, now: int)
    ensures var later := CloseOpen(rows, userId, now);
            |later| == |rows|
            && forall k :: 0 <= k < |rows| ==>
                 var life := rows[k].value;
                 later[k].id == rows[k].id
                 && later[k].value == if life.userId == userId && life.consumedAt == None && life.closedAt == None
                                        then life.(closedAt := Some(now)) else life
  {}

  /** At any time, what may no longer be consumed after closing are exactly the user's own rows. */
  lemma ClosingEndsOwnOnly<P>(rows: Table<P>, userId: string, now: int, k: nat, at: int)
    requires Distinct(rows) && k < |rows|
    ensures var later, id := CloseOpen(rows, userId, now), rows[k].id;
            Consumable(later, id, at) <==> Consumable(rows, id, at) && rows[k].value.userId != userId
  {
    var later := CloseOpen(rows, userId, now);
    CloseOpenMarks(rows, userId, now);
    ConsumableExactly(rows, k, at);
    ConsumableExactly(later, k, at);
  }

  /** The positions of the user's open rows. */
  function OpenAt<P>(rows: Table<P>, userId: string): set<nat> {
    set k: nat | k < |rows| && rows[k].value.userId == userId && rows[k].value.consumedAt == None
                 && rows[k].value.closedAt == None
  }

  /** The number that closing returns is the number of the user's open rows. */
  lemma {:induction false} CountOpenIs<P>(rows: Table<P>, userId: string)
    ensures CountOpen(rows, userId) == |OpenAt(rows, userId)|
  {
    if rows == [] {
    } else {
      var n := |rows| - 1;
      CountOpenIs(rows[..n], userId);
      if n in OpenAt(rows, userId) {
        assert OpenAt(rows, userId) == OpenAt(rows[..n], userId) + {n};
      } else {
        assert OpenAt(rows, userId) == OpenAt(rows[..n], userId);
      }
    }
  }

  // ---- Runs ----

  /** `Amend` rewrites what the rows carry besides their lifecycle. */
  datatype Op<P> =
    | Creates(id: string, userId: string, createdAt: int, expiresAt: int, payload: P)
    | Consumes(id: string, now: int)
    | Closes(userId: string, now: int)
    | Amends(payloads: seq<P>)

  function Amend<P>(rows: Table<P>, payloads: seq<P>): Table<P> {
    if |payloads| != |rows| then rows
    else seq(|rows|, i requires 0 <= i < |rows| => rows[i].(value := rows[i].value.(payload := payloads[i])))
  }

  function Apply<P>(rows: Table<P>, op: Op<P>): Table<P> {
    match op
    case Creates(id, userId, createdAt, expiresAt, payload) => Create(rows, id, userId, createdAt, expiresAt, payload)
    case Consumes(id, now) => Consume(rows, id, now)
    case Closes(userId, now) => CloseOpen(rows, userId, now)
    case Amends(payloads) => Amend(rows, payloads)
  }

  function Run<P>(rows: Table<P>, ops: seq<Op<P>>): Table<P>
    decreases |ops|
  {
    if ops == [] then rows else Run(Apply(rows, ops[0]), ops[1..])
  }

  lemma {:induction false} RunOneMore<P>(rows: Table<P>, ops: seq<Op<P>>, op: Op<P>)
    ensures Run(rows, ops + [op]) == Apply(Run(rows, ops), op)
    decreases |ops|
  {
    if ops == [] {
      assert [op][1..] == [];
    } else {
      assert (ops + [op])[1..] == ops[1..] + [op];
      RunOneMore(Apply(rows, ops[0]), ops[1..], op);
    }
  }

  /** Ids are not used twice. */
  predicate Fresh<P>(rows: Table<P>, op: Op<P>) { op.Creates? ==> !Has(rows, op.id) }

  predicate FreshRun<P>(rows: Table<P>, ops: seq<Op<P>>)
    decreases |ops|
  {
    ops == [] || (Fresh(rows, ops[0]) && FreshRun(Apply(rows, ops[0]), ops[1..]))
  }

  // ---- What every operation keeps ----

  predicate NotBoth<P>(row: Row<P>) { row.value.consumedAt.None? || row.value.closedAt.None? }

  predicate Valid<P>(rows: Table<P>) {
    Distinct(rows) && forall i :: 0 <= i < |rows| ==> NotBoth(rows[i])
  }

  lemma ApplyKeepsValid<P>(rows: Table<P>, op: Op<P>)
    requires Valid(rows)
    ensures Valid(Apply(rows, op))
  {}

  lemma ApplyKeepsDistinct<P>(rows: Table<P>, op: Op<P>)
    requires Distinct(rows)
    ensures Distinct(Apply(rows, op))
  {}

  /** Both moments are written once, and nothing else of the life changes. */
  predicate Advanced<P>(row: Row<P>, later: Row<P>) {
    && later.id == row.id && later.value.userId == row.value.userId
    && later.value.createdAt == row.value.createdAt && later.value.expiresAt == row.value.expiresAt
    && (row.value.consumedAt.Some? ==> later.value.consumedAt == row.value.consumedAt)
    && (row.value.closedAt.Some? ==> later.value.closedAt == row.value.closedAt)
  }

  predicate TableAdvanced<P>(rows: Table<P>, later: Table<P>) {
    |rows| <= |later| && forall i :: 0 <= i < |rows| ==> Advanced(rows[i], later[i])
  }

  lemma ApplyAdvances<P>(rows: Table<P>, op: Op<P>)
    requires Fresh(rows, op)
    ensures TableAdvanced(rows, Apply(rows, op))
  {}

  /** Over any run with fresh ids, consumption and closing are final, and no row has both. */
  lemma {:induction false} RunAdvances<P>(rows: Table<P>, ops: seq<Op<P>>)
    requires Valid(rows) && FreshRun(rows, ops)
    ensures Valid(Run(rows, ops)) && TableAdvanced(rows, Run(rows, ops))
    decreases |ops|
  {
    if ops == [] {
    } else {
      ApplyKeepsValid(rows, ops[0]);
      ApplyAdvances(rows, ops[0]);
      RunAdvances(Apply(rows, ops[0]), ops[1..]);
    }
  }

  // ---- Consumed at most once ----

  /** How often the run consumes the row with the given id successfully. */
  function Successes<P>(rows: Table<P>, ops: seq<Op<P>>, id: string): nat
    decreases |ops|
  {
    if ops == [] then 0
    else (if ops[0].Consumes? && ops[0].id == id && Consumable(rows, id, ops[0].now) then 1 else 0)
         + Successes(Apply(rows, ops[0]), ops[1..], id)
  }

  function ConsumedFlag<P>(rows: Table<P>, id: string): nat {
    if Has(rows, id) && Get(rows, id).consumedAt.Some? then 1 else 0
  }

  lemma FlagStep<P>(rows: Table<P>, op: Op<P>, id: string)
    requires Valid(rows) && Fresh(rows, op)
    ensures ConsumedFlag(Apply(rows, op), id)
         == ConsumedFlag(rows, id) + if op.Consumes? && op.id == id && Consumable(rows, id, op.now) then 1 else 0
  {
    var later := Apply(rows, op);
    ApplyKeepsValid(rows, op);
    ApplyAdvances(rows, op);
    if Has(rows, id) {
      var i := Find(rows, id);
      assert later[i].id == id;
      FindIs(later, i);
    } else if Has(later, id) {
      assert op.Creates?;
    }
  }

  /** A row is consumed successfully exactly if it ends up consumed, and then exactly once. */
  lemma {:induction false} ConsumedAtMostOnce<P>(rows: Table<P>, ops: seq<Op<P>>, id: string)
    requires Valid(rows) && FreshRun(rows, ops)
    ensures Successes(rows, ops, id) == ConsumedFlag(Run(rows, ops), id) - ConsumedFlag(rows, id)
    ensures Successes(rows, ops, id) <= 1
    decreases |ops|
  {
    if ops == [] {
    } else {
      FlagStep(rows, ops[0], id);
      ApplyKeepsValid(rows, ops[0]);
      ConsumedAtMostOnce(Apply(rows, ops[0]), ops[1..], id);
    }
  }

  /** A closed row is never consumed. */
  lemma NeverAfterClosing<P>(rows: Table<P>, ops: seq<Op<P>>, i: nat)
    requires Valid(rows) && FreshRun(rows, ops) && i < |rows| && rows[i].value.closedAt.Some?
    ensures Successes(rows, ops, rows[i].id) == 0
  {
    var later := Run(rows, ops);
    RunAdvances(rows, ops);
    ConsumedAtMostOnce(rows, ops, rows[i].id);
    FindIs(rows, i);
    assert Advanced(rows[i], later[i]) && NotBoth(later[i]);
    FindIs(later, i);
  }

  /** The moment of a successful consumption is kept over any later run. */
  lemma ConsumptionSticks<P>(rows: Table<P>, id: string, now: int, ops: seq<Op<P>>)
    requires Valid(rows) && Consumable(rows, id, now) && FreshRun(Consume(rows, id, now), ops)
    ensures var later := Run(Consume(rows, id, now), ops); var i := Find(rows, id);
            i < |later| && later[i].id == id && later[i].value.consumedAt == Some(now) && later[i].value.closedAt.None?
  {
    ApplyKeepsValid(rows, Consumes(id, now));
    RunAdvances(Consume(rows, id, now), ops);
    var later, i := Run(Consume(rows, id, now), ops), Find(rows, id);
    assert Advanced(Consume(rows, id, now)[i], later[i]) && NotBoth(later[i]);
  }

  // ---- At most one open row per user ----

  predicate OneOpen<P>(rows: Table<P>) {
    forall i, j :: 0 <= i < j < |rows| && Open(rows[i]) && Open(rows[j]) ==>
        rows[i].value.userId != rows[j].value.userId
  }

  predicate NoneOpenFor<P>(rows: Table<P>, userId: string) {
    forall i :: 0 <= i < |rows| ==> !OpenFor(rows[i], userId)
  }

  /** A row is created only when its user has no open one. */
  predicate Guarded<P>(rows: Table<P>, op: Op<P>) { op.Creates? ==> NoneOpenFor(rows, op.userId) }

  predicate GuardedRun<P>(rows: Table<P>, ops: seq<Op<P>>)
    decreases |ops|
  {
    ops == [] || (Guarded(rows, ops[0]) && GuardedRun(Apply(rows, ops[0]), ops[1..]))
  }

  predicate OneOpenThroughout<P>(rows: Table<P>, ops: seq<Op<P>>)
    decreases |ops|
  {
    OneOpen(rows) && (ops != [] ==> OneOpenThroughout(Apply(rows, ops[0]), ops[1..]))
  }

  lemma OneOpenStep<P>(rows: Table<P>, op: Op<P>)
    requires Fresh(rows, op) && OneOpen(rows)
    ensures OneOpen(Apply(rows, op)) <==> Guarded(rows, op)
  {
    var later := Apply(rows, op);
    if op.Creates? && !Guarded(rows, op) {
      var i :| 0 <= i < |rows| && OpenFor(rows[i], op.userId);
      assert later[i] == rows[i] && Open(later[|rows|]) && later[|rows|].value.userId == op.userId;
    }
  }

  /** Over any run, no user ever has two open rows exactly if every creation finds none open. */
  lemma {:induction false} OneOpenExactlyIfGuarded<P>(rows: Table<P>, ops: seq<Op<P>>)
    requires OneOpen(rows) && FreshRun(rows, ops)
    ensures OneOpenThroughout(rows, ops) <==> GuardedRun(rows, ops)
    decreases |ops|
  {
    if ops == [] {
    } else {
      OneOpenStep(rows, ops[0]);
      if Guarded(rows, ops[0]) {
        OneOpenExactlyIfGuarded(Apply(rows, ops[0]), ops[1..]);
      }
    }
  }

  /** Every creation comes directly after closing the user's open rows. */
  predicate Disciplined<P>(ops: seq<Op<P>>) {
    forall i :: 0 <= i < |ops| && ops[i].Creates? ==> i > 0 && ops[i - 1].Closes? && ops[i - 1].userId == ops[i].userId
  }

  lemma {:induction false} DisciplineGuards<P>(rows: Table<P>, ops: seq<Op<P>>)
    requires ops != [] && ops[0].Creates? ==> NoneOpenFor(rows, ops[0].userId)
    requires forall i :: 0 < i < |ops| && ops[i].Creates? ==> ops[i - 1].Closes? && ops[i - 1].userId == ops[i].userId
    ensures GuardedRun(rows, ops)
    decreases |ops|
  {
    if ops == [] {
    } else {
      var rest := ops[1..];
      forall i | 0 < i < |rest| && rest[i].Creates?
        ensures rest[i - 1].Closes? && rest[i - 1].userId == rest[i].userId
      {
        assert rest[i] == ops[i + 1] && rest[i - 1] == ops[i];
      }
      DisciplineGuards(Apply(rows, ops[0]), rest);
    }
  }

  /** Closing and then creating, with nothing in between, leaves at most one open row per user. */
  lemma CloseThenCreateKeepsOneOpen<P>(rows: Table<P>, ops: seq<Op<P>>)
    requires OneOpen(rows) && FreshRun(rows, ops) && Disciplined(ops)
    ensures OneOpenThroughout(rows, ops)
  {
    DisciplineGuards(rows, ops);
    OneOpenExactlyIfGuarded(rows, ops);
  }

  /** Two requests for the same user, the second one closing before the first one creates. */
  function Interleaved<P>(userId: string, a: string, b: string, now: int, expiresAt: int, payload: P): seq<Op<P>> {
    [Closes(userId, now)] + ([Closes(userId, now)]
    + ([Creates(a, userId, now, expiresAt, payload)] + ([Creates(b, userId, now, expiresAt, payload)] + [])))
  }

  /**
   * They leave the user with two open rows: a unique index would refuse the second creation, this
   * store does not.
   */
  lemma InterleavedRequestsLeaveTwoOpen<P>(userId: string, a: string, b: string, now: int, expiresAt: int, payload: P)
    requires a != b
    ensures var ops := Interleaved(userId, a, b, now, expiresAt, payload);
            FreshRun([], ops) && !OneOpen(Run([], ops)) && CountOpen(Run([], ops), userId) == 2
  {
    var c := Closes(userId, now);
    var ca, cb := Creates(a, userId, now, expiresAt, payload), Creates(b, userId, now, expiresAt, payload);
    var none: Table<P> := [];
    var one, two := Apply(none, ca), Apply(Apply(none, ca), cb);
    StepRun(none, c, [c] + ([ca] + ([cb] + [])));
    StepRun(none, c, [ca] + ([cb] + []));
    StepRun(none, ca, [cb] + []);
    StepRun(one, cb, []);
    TwoRows(one, two, userId);
  }

  lemma TwoRows<P>(one: Table<P>, two: Table<P>, userId: string)
    requires |one| == 1 && |two| == 2 && two[0] == one[0]
    requires OpenFor(two[0], userId) && OpenFor(two[1], userId)
    ensures !OneOpen(two) && CountOpen(two, userId) == 2
  {
    assert two[..1] == one && one[..0] == [];
    assert CountOpen(one, userId) == CountOpen(one[..0], userId) + 1;
  }

  lemma StepRun<P>(rows: Table<P>, op: Op<P>, rest: seq<Op<P>>)
    ensures Run(rows, [op] + rest) == Run(Apply(rows, op), rest)
    ensures FreshRun(rows, [op] + rest) <==> Fresh(rows, op) && FreshRun(Apply(rows, op), rest)
  {
    assert ([op] + rest)[1..] == rest;
  }
}
