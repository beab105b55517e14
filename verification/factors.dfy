/** Time-based one-time-password factors, with the watermark that refuses replayed codes. */
module Factors {
  import opened Text
  import opened Rows

  datatype Factor = Factor(userId: string, factorType: string, secretCiphertext: Option<string>,
                           secretKeyVersion: Option<string>, createdAt: int, verifiedAt: Option<int>,
                           disabledAt: Option<int>, lastUsedTimeStep: Option<int>)

  type FactorTable = seq<Entry<Factor>>

  // ---- The operations as functions ----

  function Create(rows: FactorTable, id: string, userId: string, factorType: string, secretCiphertext: string,
                  secretKeyVersion: string, createdAt: int): FactorTable
  {
    Put(rows, id, Factor(userId, factorType, Some(secretCiphertext), Some(secretKeyVersion), createdAt, None, None,
        None))
  }

  predicate Pending(rows: FactorTable, id: string) {
    Has(rows, id) && Get(rows, id).verifiedAt.None? && Get(rows, id).disabledAt.None?
  }

  function MarkVerified(rows: FactorTable, id: string, verifiedAt: int): FactorTable {
    if Pending(rows, id) then Put(rows, id, Get(rows, id).(verifiedAt := Some(verifiedAt))) else rows
  }

  /** A time step is accepted if it is newer than every step accepted before. */
  predicate Accepts(rows: FactorTable, id: string, timeStep: int) {
    Has(rows, id) && (Get(rows, id).lastUsedTimeStep.None? || Get(rows, id).lastUsedTimeStep.value < timeStep)
  }

  function Advance(rows: FactorTable, id: string, timeStep: int): FactorTable {
    if Accepts(rows, id, timeStep) then Put(rows, id, Get(rows, id).(lastUsedTimeStep := Some(timeStep))) else rows
  }

  predicate Enabled(rows: FactorTable, id: string) { Has(rows, id) && Get(rows, id).disabledAt.None? }

  function Disable(rows: FactorTable, id: string, disabledAt: int): FactorTable {
    if Enabled(rows, id) then Put(rows, id, Get(rows, id).(disabledAt := Some(disabledAt))) else rows
  }

  // ---- What each operation changes ----

  /** A new factor waits to be verified, and has accepted no time step. */
  lemma CreateAdds(rows: FactorTable, id: string, userId: string, factorType: string, secret: string, version: string,
                   at: int)
    requires forall k :: 0 <= k < |rows| ==> rows[k].id != id
    ensures Create(rows, id, userId, factorType, secret, version, at) ==
            rows + [Entry(id, Factor(userId, factorType, Some(secret), Some(version), at, None, None, None))]
  {}

  lemma FoundAt(rows: FactorTable, id: string)
    requires Distinct(rows)
    ensures forall k :: 0 <= k < |rows| && rows[k].id == id ==> Find(rows, id) == k
  {
    forall k | 0 <= k < |rows| && rows[k].id == id ensures Find(rows, id) == k {
      FindIs(rows, k);
    }
  }

  /** Marking writes its moment into a factor that is neither verified nor disabled, and nothing else. */
  lemma MarkVerifiedMarks(rows: FactorTable, id: string, at: int)
    requires Distinct(rows)
    ensures var later := MarkVerified(rows, id, at);
            ChangedAt(rows, later, id)
            && forall k :: 0 <= k < |rows| && rows[k].id == id ==>
                 var f := rows[k].value;
                 && (Pending(rows, id) <==> f.verifiedAt == None && f.disabledAt == None)
                 && later[k].value == if f.verifiedAt == None && f.disabledAt == None
                                        then f.(verifiedAt := Some(at)) else f
  {
    FoundAt(rows, id);
  }

  /** A time step is accepted and written if the factor has accepted none before, or only older ones. */
  lemma AdvanceMarks(rows: FactorTable, id: string, timeStep: int)
    requires Distinct(rows)
    ensures var later := Advance(rows, id, timeStep);
            ChangedAt(rows, later, id)
            && forall k :: 0 <= k < |rows| && rows[k].id == id ==>
                 var f := rows[k].value;
                 && (Accepts(rows, id, timeStep) <==> f.lastUsedTimeStep == None || f.lastUsedTimeStep.value < timeStep)
                 && later[k].value == if f.lastUsedTimeStep == None || f.lastUsedTimeStep.value < timeStep
                                        then f.(lastUsedTimeStep := Some(timeStep)) else f
  {
    FoundAt(rows, id);
  }

  /** Disabling writes its moment into a factor that is not disabled, and nothing else. */
  lemma DisableMarks(rows: FactorTable, id: string, at: int)
    requires Distinct(rows)
    ensures var later := Disable(rows, id, at);
            ChangedAt(rows, later, id)
            && forall k :: 0 <= k < |rows| && rows[k].id == id ==>
                 var f := rows[k].value;
                 && (Enabled(rows, id) <==> f.disabledAt == None)
                 && later[k].value == if f.disabledAt == None then f.(disabledAt := Some(at)) else f
  {
    FoundAt(rows, id);
  }

  /** Without the factor there is nothing to mark, accept or disable. */
  lemma UnknownFactor(rows: FactorTable, id: string, at: int)
    requires forall k :: 0 <= k < |rows| ==> rows[k].id != id
    ensures !Pending(rows, id) && !Accepts(rows, id, at) && !Enabled(rows, id)
    ensures MarkVerified(rows, id, at) == Advance(rows, id, at) == Disable(rows, id, at) == rows
  {}

  // ---- Runs ----

  datatype Op =
    | Creates(id: string, userId: string, factorType: string, secretCiphertext: string, secretKeyVersion: string,
        createdAt: int)
    | MarksVerified(id: string, verifiedAt: int)
    | Advances(id: string, timeStep: int)
    | Disables(id: string, disabledAt: int)

  function Apply(rows: FactorTable, op: Op): FactorTable {
    match op
    case Creates(id, userId, factorType, cipher, keyVersion, createdAt) =>
      Create(rows, id, userId, factorType, cipher, keyVersion, createdAt)
    case MarksVerified(id, verifiedAt) => MarkVerified(rows, id, verifiedAt)
    case Advances(id, timeStep) => Advance(rows, id, timeStep)
    case Disables(id, disabledAt) => Disable(rows, id, disabledAt)
  }

  function Run(rows: FactorTable, ops: seq<Op>): FactorTable
    decreases |ops|
  {
    if ops == [] then rows else Run(Apply(rows, ops[0]), ops[1..])
  }

  lemma {:induction false} RunOneMore(rows: FactorTable, ops: seq<Op>, op: Op)
    ensures Run(rows, ops + [op]) == Apply(Run(rows, ops), op)
    decreases |ops|
  {
    if ops == [] {
      assert [op][1..] == [];
    } else {
      assert (ops + [op])[1..] == ops[1..] + [op];
      RunOneMore(Apply(rows, ops[0]), ops[1..], op);
    }
  }

  predicate Fresh(rows: FactorTable, op: Op) { op.Creates? ==> !Has(rows, op.id) }

  predicate FreshRun(rows: FactorTable, ops: seq<Op>)
    decreases |ops|
  {
    ops == [] || (Fresh(rows, ops[0]) && FreshRun(Apply(rows, ops[0]), ops[1..]))
  }

  lemma ApplyKeepsDistinct(rows: FactorTable, op: Op)
    requires Distinct(rows)
    ensures Distinct(Apply(rows, op))
  {}

  // ---- Replay ----

  /** The steps accepted for the factor, in the order of the run. */
  function AcceptedSteps(rows: FactorTable, ops: seq<Op>, id: string): seq<int>
    decreases |ops|
  {
    if ops == [] then [] else AcceptedStep(rows, ops[0], id) + AcceptedSteps(Apply(rows, ops[0]), ops[1..], id)
  }

  /** The step that one operation gets accepted, if any. */
  function AcceptedStep(rows: FactorTable, op: Op, id: string): seq<int> {
    if op.Advances? && op.id == id && Accepts(rows, id, op.timeStep) then [op.timeStep] else []
  }

  /** The last step, or what there was before. */
  function Last(steps: seq<int>, before: Option<int>): Option<int> {
    if steps == [] then before else Some(steps[|steps| - 1])
  }

  function Watermark(rows: FactorTable, id: string): Option<int> {
    if Has(rows, id) then Get(rows, id).lastUsedTimeStep else None
  }

  predicate Increasing(steps: seq<int>) { forall i, j :: 0 <= i < j < |steps| ==> steps[i] < steps[j] }

  predicate Beyond(steps: seq<int>, mark: Option<int>) {
    mark.Some? ==> forall i :: 0 <= i < |steps| ==> mark.value < steps[i]
  }

  lemma WatermarkStep(rows: FactorTable, op: Op, id: string)
    requires Distinct(rows) && Fresh(rows, op)
    ensures Distinct(Apply(rows, op)) && (Has(rows, id) ==> Has(Apply(rows, op), id))
    ensures Watermark(Apply(rows, op), id) == Last(AcceptedStep(rows, op, id), Watermark(rows, id))
    ensures Beyond(AcceptedStep(rows, op, id), Watermark(rows, id))
  {
    match op
    case Creates(k, userId, factorType, cipher, keyVersion, createdAt) =>
      PutGet(rows, k, Factor(userId, factorType, Some(cipher), Some(keyVersion), createdAt, None, None, None), id);
    case MarksVerified(k, at) => if Pending(rows, k) { PutGet(rows, k, Get(rows, k).(verifiedAt := Some(at)), id); }
    case Advances(k, step) =>
      if Accepts(rows, k, step) { PutGet(rows, k, Get(rows, k).(lastUsedTimeStep := Some(step)), id); }
    case Disables(k, at) => if Enabled(rows, k) { PutGet(rows, k, Get(rows, k).(disabledAt := Some(at)), id); }
  }

  lemma OneMoreStep(first: seq<int>, later: seq<int>, mark: Option<int>)
    requires |first| <= 1 && Beyond(first, mark) && Increasing(later)
    requires Beyond(later, Last(first, mark))
    ensures Increasing(first + later) && Beyond(first + later, mark)
    ensures Last(first + later, mark) == Last(later, Last(first, mark))
  {}

  /**
   * Over any run with fresh ids: the accepted steps strictly increase, and the watermark is the
   * last of them.
   */
  lemma {:induction false} AcceptedStepsIncrease(rows: FactorTable, ops: seq<Op>, id: string)
    requires Distinct(rows) && FreshRun(rows, ops)
    ensures var steps := AcceptedSteps(rows, ops, id);
            Increasing(steps) && Beyond(steps, Watermark(rows, id))
            && Watermark(Run(rows, ops), id) == Last(steps, Watermark(rows, id))
    decreases |ops|
  {
    if ops == [] {
    } else {
      WatermarkStep(rows, ops[0], id);
      AcceptedStepsIncrease(Apply(rows, ops[0]), ops[1..], id);
      OneMoreStep(AcceptedStep(rows, ops[0], id), AcceptedSteps(Apply(rows, ops[0]), ops[1..], id),
          Watermark(rows, id));
    }
  }

  /** A factor that starts with the run accepts a step exactly if no accepted step is as new or newer. */
  lemma AcceptedExactlyIfNewer(rows: FactorTable, ops: seq<Op>, id: string, timeStep: int)
    requires Distinct(rows) && FreshRun(rows, ops) && !Has(rows, id)
    ensures var steps := AcceptedSteps(rows, ops, id);
            Accepts(Run(rows, ops), id, timeStep) <==>
              Has(Run(rows, ops), id) && forall i :: 0 <= i < |steps| ==> steps[i] < timeStep
  {
    AcceptedStepsIncrease(rows, ops, id);
  }

  lemma {:induction false} IncreasingSpreads(steps: seq<int>, k: nat)
    requires Increasing(steps) && k < |steps|
    ensures steps[k] - steps[0] >= k
  {
    if k == 0 {
    } else {
      IncreasingSpreads(steps, k - 1);
    }
  }

  /** So there are never more acceptances than time steps between the first and the last. */
  lemma AcceptancesFitTheTime(rows: FactorTable, ops: seq<Op>, id: string)
    requires Distinct(rows) && FreshRun(rows, ops)
    ensures var steps := AcceptedSteps(rows, ops, id);
            steps != [] ==> |steps| <= steps[|steps| - 1] - steps[0] + 1
  {
    AcceptedStepsIncrease(rows, ops, id);
    var steps := AcceptedSteps(rows, ops, id);
    if steps != [] {
      IncreasingSpreads(steps, |steps| - 1);
    }
  }

  // ---- Enrolment ----

  /** How often the run marks the factor verified, and how often it does so once the factor is disabled. */
  function Verifications(rows: FactorTable, ops: seq<Op>, id: string): nat
    decreases |ops|
  {
    if ops == [] then 0
    else (if ops[0].MarksVerified? && ops[0].id == id && Pending(rows, id) then 1 else 0)
         + Verifications(Apply(rows, ops[0]), ops[1..], id)
  }

  predicate Settled(rows: FactorTable, id: string) { Has(rows, id) && !Pending(rows, id) }

  lemma PendingStep(rows: FactorTable, op: Op, id: string)
    requires Distinct(rows) && Fresh(rows, op)
    ensures Distinct(Apply(rows, op)) && (Settled(rows, id) ==> Settled(Apply(rows, op), id))
    ensures op.MarksVerified? && op.id == id && Pending(rows, id) ==> Settled(Apply(rows, op), id)
  {
    match op
    case Creates(k, userId, factorType, cipher, keyVersion, createdAt) =>
      PutGet(rows, k, Factor(userId, factorType, Some(cipher), Some(keyVersion), createdAt, None, None, None), id);
    case MarksVerified(k, at) => if Pending(rows, k) { PutGet(rows, k, Get(rows, k).(verifiedAt := Some(at)), id); }
    case Advances(k, step) =>
      if Accepts(rows, k, step) { PutGet(rows, k, Get(rows, k).(lastUsedTimeStep := Some(step)), id); }
    case Disables(k, at) => if Enabled(rows, k) { PutGet(rows, k, Get(rows, k).(disabledAt := Some(at)), id); }
  }

  /** A factor is verified at most once, and not at all once it has been verified or disabled. */
  lemma {:induction false} VerifiedAtMostOnce(rows: FactorTable, ops: seq<Op>, id: string)
    requires Distinct(rows) && FreshRun(rows, ops)
    ensures Verifications(rows, ops, id) <= if Settled(rows, id) then 0 else 1
    decreases |ops|
  {
    if ops == [] {
    } else {
      PendingStep(rows, ops[0], id);
      VerifiedAtMostOnce(Apply(rows, ops[0]), ops[1..], id);
    }
  }

  predicate IsVerified(rows: FactorTable, id: string) { Has(rows, id) && Get(rows, id).verifiedAt.Some? }

  lemma VerifiedStep(rows: FactorTable, op: Op, id: string)
    requires Distinct(rows) && Fresh(rows, op)
    ensures IsVerified(Apply(rows, op), id) <==>
              IsVerified(rows, id) || (op.MarksVerified? && op.id == id && Pending(rows, id))
    ensures op.MarksVerified? && op.id == id && Pending(rows, id) ==> !IsVerified(rows, id)
  {
    match op
    case Creates(k, userId, factorType, cipher, keyVersion, createdAt) =>
      PutGet(rows, k, Factor(userId, factorType, Some(cipher), Some(keyVersion), createdAt, None, None, None), id);
    case MarksVerified(k, at) => if Pending(rows, k) { PutGet(rows, k, Get(rows, k).(verifiedAt := Some(at)), id); }
    case Advances(k, step) =>
      if Accepts(rows, k, step) { PutGet(rows, k, Get(rows, k).(lastUsedTimeStep := Some(step)), id); }
    case Disables(k, at) => if Enabled(rows, k) { PutGet(rows, k, Get(rows, k).(disabledAt := Some(at)), id); }
  }

  /** A factor is marked verified exactly as often as it goes from unverified to verified. */
  lemma {:induction false} VerifiedExactly(rows: FactorTable, ops: seq<Op>, id: string)
    requires Distinct(rows) && FreshRun(rows, ops)
    ensures Verifications(rows, ops, id)
         == (if IsVerified(Run(rows, ops), id) then 1 else 0) - if IsVerified(rows, id) then 1 else 0
    decreases |ops|
  {
    if ops == [] {
    } else {
      ApplyKeepsDistinct(rows, ops[0]);
      VerifiedStep(rows, ops[0], id);
      VerifiedExactly(Apply(rows, ops[0]), ops[1..], id);
    }
  }

  // ---- One active factor per user ----

  predicate ActiveFor(row: Entry<Factor>, userId: string) { row.value.userId == userId && row.value.disabledAt.None? }

  predicate OneActive(rows: FactorTable) {
    forall i, j :: 0 <= i < j < |rows| && rows[i].value.disabledAt.None? && rows[j].value.disabledAt.None? ==>
      rows[i].value.userId != rows[j].value.userId
  }

  /** A factor is created only when its user has no active one. */
  predicate Guarded(rows: FactorTable, op: Op) {
    op.Creates? ==> forall i :: 0 <= i < |rows| ==> !ActiveFor(rows[i], op.userId)
  }

  predicate GuardedRun(rows: FactorTable, ops: seq<Op>)
    decreases |ops|
  {
    ops == [] || (Guarded(rows, ops[0]) && GuardedRun(Apply(rows, ops[0]), ops[1..]))
  }

  predicate OneActiveThroughout(rows: FactorTable, ops: seq<Op>)
    decreases |ops|
  {
    OneActive(rows) && (ops != [] ==> OneActiveThroughout(Apply(rows, ops[0]), ops[1..]))
  }

  /** Changing a factor that stays its user's, and does not become active again, adds no active one. */
  lemma ChangeKeepsOneActive(rows: FactorTable, id: string, factor: Factor)
    requires OneActive(rows) && Has(rows, id) && factor.userId == Get(rows, id).userId
    requires factor.disabledAt.None? ==> Get(rows, id).disabledAt.None?
    ensures OneActive(Put(rows, id, factor))
  {}

  lemma OneActiveStep(rows: FactorTable, op: Op)
    requires Fresh(rows, op) && OneActive(rows)
    ensures OneActive(Apply(rows, op)) <==> Guarded(rows, op)
  {
    match op
    case Creates(_, userId, _, _, _, _) =>
      var later := Apply(rows, op);
      if i :| 0 <= i < |rows| && ActiveFor(rows[i], userId) {
        assert later[i] == rows[i] && ActiveFor(later[|rows|], userId);
      }
    case MarksVerified(k, at) =>
      if Pending(rows, k) { ChangeKeepsOneActive(rows, k, Get(rows, k).(verifiedAt := Some(at))); }
    case Advances(k, step) =>
      if Accepts(rows, k, step) { ChangeKeepsOneActive(rows, k, Get(rows, k).(lastUsedTimeStep := Some(step))); }
    case Disables(k, at) =>
      if Enabled(rows, k) { ChangeKeepsOneActive(rows, k, Get(rows, k).(disabledAt := Some(at))); }
  }

  /**
   * Over any run with fresh ids, no user ever has two active factors exactly if every creation finds
   * none; the store does not see to it itself.
   */
  lemma {:induction false} OneActiveExactlyIfGuarded(rows: FactorTable, ops: seq<Op>)
    requires OneActive(rows) && FreshRun(rows, ops)
    ensures OneActiveThroughout(rows, ops) <==> GuardedRun(rows, ops)
    decreases |ops|
  {
    if ops == [] {
    } else {
      OneActiveStep(rows, ops[0]);
      if Guarded(rows, ops[0]) {
        OneActiveExactlyIfGuarded(Apply(rows, ops[0]), ops[1..]);
      }
    }
  }

  // ---- Enrolments ----

  /** The index of the user's first active factor, or the number of factors. */
  function FindActive(rows: FactorTable, userId: string): (i: nat)
    ensures i <= |rows| && (i < |rows| ==> ActiveFor(rows[i], userId))
    ensures forall k :: 0 <= k < i ==> !ActiveFor(rows[k], userId)
  {
    if rows == [] || ActiveFor(rows[0], userId) then 0 else 1 + FindActive(rows[1..], userId)
  }

  /** What an enrolment does after looking: nothing, a new factor, or a new one for an abandoned one. */
  function Enrol(rows: FactorTable, id: string, userId: string, secretCiphertext: string, keyVersion: string,
                 now: int): seq<Op> {
    var i := FindActive(rows, userId);
    var create := [Creates(id, userId, "TOTP", secretCiphertext, keyVersion, now)];
    if i == |rows| then create
    else if rows[i].value.verifiedAt.Some? then []
    else [Disables(rows[i].id, now)] + create
  }

  lemma OneOp(rows: FactorTable, op: Op)
    ensures Run(rows, [op]) == Apply(rows, op) && (FreshRun(rows, [op]) <==> Fresh(rows, op))
  {
    RestOfCons(op, []);
  }

  lemma TwoOps(rows: FactorTable, a: Op, b: Op)
    ensures Run(rows, [a] + [b]) == Apply(Apply(rows, a), b)
  {
    RestOfCons(a, [b]);
    OneOp(Apply(rows, a), b);
  }

  lemma DisabledHasNoActive(rows: FactorTable, userId: string, now: int)
    requires Distinct(rows) && OneActive(rows) && FindActive(rows, userId) < |rows|
    ensures var later := Disable(rows, rows[FindActive(rows, userId)].id, now);
            OneActive(later) && |later| == |rows|
            && (forall k :: 0 <= k < |rows| ==> later[k].id == rows[k].id && !ActiveFor(later[k], userId))
  {
    var i := FindActive(rows, userId);
    FindIs(rows, i);
    ChangeKeepsOneActive(rows, rows[i].id, rows[i].value.(disabledAt := Some(now)));
  }

  predicate FirstActive(rows: FactorTable, k: nat, userId: string) {
    k < |rows| && rows[k].value.userId == userId && rows[k].value.disabledAt == None
    && forall j :: 0 <= j < k ==> rows[j].value.userId != userId || rows[j].value.disabledAt.Some?
  }

  /**
   * An enrolment that is served as a whole keeps a verified factor as it is; otherwise it adds a new
   * factor, and disables the unverified one that was there.
   */
  lemma EnrolmentChanges(rows: FactorTable, id: string, userId: string, secret: string, version: string, now: int)
    requires Distinct(rows) && forall k :: 0 <= k < |rows| ==> rows[k].id != id
    ensures var later := Run(rows, Enrol(rows, id, userId, secret, version, now));
            var added := Entry(id, Factor(userId, "TOTP", Some(secret), Some(version), now, None, None, None));
            && ((forall k: nat :: !FirstActive(rows, k, userId)) ==> later == rows + [added])
            && forall k: nat :: FirstActive(rows, k, userId) ==>
                 later == if rows[k].value.verifiedAt.Some? then rows
                          else rows[k := Entry(rows[k].id, rows[k].value.(disabledAt := Some(now)))] + [added]
  {
    var i, create := FindActive(rows, userId), Creates(id, userId, "TOTP", secret, version, now);
    forall k: nat | FirstActive(rows, k, userId) ensures i == k {
      assert ActiveFor(rows[k], userId) && !(i < k);
    }
    OneOp(rows, create);
    if i < |rows| {
      assert FirstActive(rows, i, userId);
      FindIs(rows, i);
      TwoOps(rows, Disables(rows[i].id, now), create);
      CreateAdds(rows[i := Entry(rows[i].id, rows[i].value.(disabledAt := Some(now)))], id, userId, "TOTP", secret,
          version, now);
    }
  }

  /** An enrolment that is served as a whole leaves its user with one active factor. */
  lemma EnrolmentKeepsOneActive(rows: FactorTable, id: string, userId: string, secretCiphertext: string,
                                keyVersion: string, now: int)
    requires Distinct(rows) && OneActive(rows) && !Has(rows, id)
    ensures var later := Run(rows, Enrol(rows, id, userId, secretCiphertext, keyVersion, now));
            OneActive(later) && FindActive(later, userId) < |later|
  {
    var i, create := FindActive(rows, userId), Creates(id, userId, "TOTP", secretCiphertext, keyVersion, now);
    if i == |rows| {
      OneOp(rows, create);
      OneActiveStep(rows, create);
      CreatedIsFound(rows, create);
    } else if rows[i].value.verifiedAt.None? {
      var later := Disable(rows, rows[i].id, now);
      DisabledHasNoActive(rows, userId, now);
      TwoOps(rows, Disables(rows[i].id, now), create);
      assert !Has(later, id);
      OneActiveStep(later, create);
      CreatedIsFound(later, create);
    }
  }

  lemma CreatedIsFound(rows: FactorTable, op: Op)
    requires op.Creates? && !Has(rows, op.id)
    ensures FindActive(Apply(rows, op), op.userId) < |Apply(rows, op)|
  {
    assert ActiveFor(Apply(rows, op)[|rows|], op.userId);
  }

  /** Two enrolments of one user that both look before either creates leave the user with two. */
  lemma InterleavedEnrolmentsLeaveTwoActive(a: string, b: string, userId: string, secret: string, other: string,
                                            keyVersion: string, now: int)
    requires a != b
    ensures var none: FactorTable := [];
            var ops := Enrol(none, a, userId, secret, keyVersion, now) + Enrol(none, b, userId, other, keyVersion, now);
            FreshRun(none, ops) && !OneActive(Run(none, ops))
  {
    var none: FactorTable := [];
    var first := Creates(a, userId, "TOTP", secret, keyVersion, now);
    var second := Creates(b, userId, "TOTP", other, keyVersion, now);
    TwoOps(none, first, second);
    var one := Apply(none, first);
    assert |one| == 1 && one[0].id == a && ActiveFor(one[0], userId);
    assert !Has(one, b);
    OneOp(one, second);
    RestOfCons(first, [second]);
    OneActiveStep(one, second);
  }
}
