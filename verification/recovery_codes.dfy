/** Recovery codes: each user has one set of them, replaced as a whole, each code good for one use. */
module RecoveryCodes {
  import opened Text

  datatype Code = Code(id: string, digest: string, consumedAt: Option<int>)
  datatype NewCode = NewCode(id: string, digest: string)

  type Codes = map<string, seq<Code>>

  function CodesOf(state: Codes, userId: string): seq<Code> { if userId in state then state[userId] else [] }

  // ---- The operations as functions ----

  function Unspent(codes: seq<NewCode>): seq<Code> {
    seq(|codes|, i requires 0 <= i < |codes| => Code(codes[i].id, codes[i].digest, None))
  }

  function ReplaceAll(state: Codes, userId: string, codes: seq<NewCode>): Codes { state[userId := Unspent(codes)] }

  /** The index of the first unused code with the digest, or the number of codes. */
  function FindUnused(codes: seq<Code>, digest: string): (i: nat)
    ensures i <= |codes| && (i < |codes| ==> codes[i].digest == digest && codes[i].consumedAt.None?)
    ensures forall k :: 0 <= k < i ==> codes[k].digest != digest || codes[k].consumedAt.Some?
  {
    if codes == [] || (codes[0].digest == digest && codes[0].consumedAt.None?) then 0
    else 1 + FindUnused(codes[1..], digest)
  }

  predicate Usable(state: Codes, userId: string, digest: string) {
    FindUnused(CodesOf(state, userId), digest) < |CodesOf(state, userId)|
  }

  function Consume(state: Codes, userId: string, digest: string, now: int): Codes {
    if Usable(state, userId, digest) then
      var codes := CodesOf(state, userId);
      var i := FindUnused(codes, digest);
      state[userId := codes[i := codes[i].(consumedAt := Some(now))]]
    else state
  }

  function DeleteAll(state: Codes, userId: string): Codes { state - {userId} }

  /** Which codes are counted: those with one digest, or all. */
  predicate Counted(digest: string, which: Option<string>) { which.None? || digest == which.value }

  /** The unused codes among the counted ones; with `None`, what `countUnusedForUser` returns. */
  function CountUnused(codes: seq<Code>, which: Option<string>): nat {
    if codes == [] then 0
    else (if codes[0].consumedAt.None? && Counted(codes[0].digest, which) then 1 else 0)
         + CountUnused(codes[1..], which)
  }

  function CountNew(codes: seq<NewCode>, which: Option<string>): nat {
    if codes == [] then 0 else (if Counted(codes[0].digest, which) then 1 else 0) + CountNew(codes[1..], which)
  }

  // ---- What each operation changes ----

  /** The user's set becomes the new codes, all unused; the sets of other users stay. */
  lemma ReplaceAllSets(state: Codes, userId: string, codes: seq<NewCode>)
    ensures var later := ReplaceAll(state, userId, codes);
            && later.Keys == state.Keys + {userId}
            && (forall u :: u in state && u != userId ==> later[u] == state[u])
            && |later[userId]| == |codes|
            && forall i :: 0 <= i < |codes| ==> later[userId][i] == Code(codes[i].id, codes[i].digest, None)
  {}

  predicate UnusedWith(code: Code, digest: string) { code.digest == digest && code.consumedAt == None }

  /** The first unused code with the digest. */
  predicate FirstUnused(codes: seq<Code>, i: nat, digest: string) {
    i < |codes| && UnusedWith(codes[i], digest) && forall k :: 0 <= k < i ==> !UnusedWith(codes[k], digest)
  }

  /** A code may be used exactly if its user has an unused one with the digest. */
  lemma UsableExactly(state: Codes, userId: string, digest: string)
    ensures Usable(state, userId, digest) <==>
              userId in state && exists i :: 0 <= i < |state[userId]| && UnusedWith(state[userId][i], digest)
  {
    var codes := CodesOf(state, userId);
    assert Usable(state, userId, digest) ==> UnusedWith(codes[FindUnused(codes, digest)], digest);
  }

  /** Using a code writes its moment into the first unused one with the digest, and nothing else. */
  lemma ConsumeMarks(state: Codes, userId: string, digest: string, now: int)
    ensures var later := Consume(state, userId, digest, now);
            && (!Usable(state, userId, digest) ==> later == state)
            && forall i: nat :: userId in state && FirstUnused(state[userId], i, digest) ==>
                 && later.Keys == state.Keys
                 && (forall u :: u in state && u != userId ==> later[u] == state[u])
                 && later[userId] == state[userId][i := state[userId][i].(consumedAt := Some(now))]
  {
    var codes := CodesOf(state, userId);
    forall i: nat | userId in state && FirstUnused(state[userId], i, digest)
      ensures FindUnused(codes, digest) == i
    {
      assert !(FindUnused(codes, digest) < i);
    }
  }

  /** The user's set is removed; the sets of other users stay. */
  lemma DeleteAllRemoves(state: Codes, userId: string)
    ensures var later := DeleteAll(state, userId);
            later.Keys == state.Keys - {userId} && forall u :: u in later ==> later[u] == state[u]
  {}

  /** The count adds up over the codes, and one code counts if it has no moment of use. */
  lemma {:induction false} CountAdds(codes: seq<Code>, more: seq<Code>, which: Option<string>)
    ensures CountUnused(codes + more, which) == CountUnused(codes, which) + CountUnused(more, which)
    ensures forall c: Code :: CountUnused([c], None) == if c.consumedAt == None then 1 else 0
  {
    forall c: Code ensures CountUnused([c], None) == if c.consumedAt == None then 1 else 0 {
      RestOfCons(c, []);
    }
    if codes == [] {
      NothingAdded(more);
    } else {
      RestOfConcat(codes, more);
      CountAdds(codes[1..], more, which);
    }
  }

  // ---- Runs ----

  datatype Op =
    | Replaces(userId: string, codes: seq<NewCode>)
    | Consumes(userId: string, digest: string, now: int)
    | Deletes(userId: string)

  function Apply(state: Codes, op: Op): Codes {
    match op
    case Replaces(userId, codes) => ReplaceAll(state, userId, codes)
    case Consumes(userId, digest, now) => Consume(state, userId, digest, now)
    case Deletes(userId) => DeleteAll(state, userId)
  }

  function Run(state: Codes, ops: seq<Op>): Codes
    decreases |ops|
  {
    if ops == [] then state else Run(Apply(state, ops[0]), ops[1..])
  }

  lemma {:induction false} RunOneMore(state: Codes, ops: seq<Op>, op: Op)
    ensures Run(state, ops + [op]) == Apply(Run(state, ops), op)
    decreases |ops|
  {
    if ops == [] {
      assert [op][1..] == [];
    } else {
      assert (ops + [op])[1..] == ops[1..] + [op];
      RunOneMore(Apply(state, ops[0]), ops[1..], op);
    }
  }

  /** Of the counted codes: how many the user was last given, and how many of those have been used. */
  datatype Tally = Tally(issued: nat, spent: nat)

  function Track(state: Codes, op: Op, userId: string, which: Option<string>, tally: Tally): Tally {
    if op.userId != userId then tally
    else match op
      case Replaces(_, codes) => Tally(CountNew(codes, which), 0)
      case Deletes(_) => Tally(0, 0)
      case Consumes(_, digest, _) =>
        if Usable(state, userId, digest) && Counted(digest, which) then Tally(tally.issued, tally.spent + 1) else tally
  }

  function TrackRun(state: Codes, ops: seq<Op>, userId: string, which: Option<string>, tally: Tally): Tally
    decreases |ops|
  {
    if ops == [] then tally
    else TrackRun(Apply(state, ops[0]), ops[1..], userId, which, Track(state, ops[0], userId, which, tally))
  }

  // ---- Conservation ----

  lemma {:induction false} AllUnspent(codes: seq<NewCode>, which: Option<string>)
    ensures CountUnused(Unspent(codes), which) == CountNew(codes, which)
  {
    if codes == [] {
    } else {
      AllUnspent(codes[1..], which);
      assert Unspent(codes)[1..] == Unspent(codes[1..]);
    }
  }

  /** Using the code at `i` takes one from the count of unused codes, if it is a counted one. */
  lemma {:induction false} UseOne(codes: seq<Code>, i: nat, now: int, which: Option<string>)
    requires i < |codes| && codes[i].consumedAt.None?
    ensures CountUnused(codes[i := codes[i].(consumedAt := Some(now))], which)
         == CountUnused(codes, which) - if Counted(codes[i].digest, which) then 1 else 0
  {
    var later := codes[i := codes[i].(consumedAt := Some(now))];
    if i == 0 {
      assert later[1..] == codes[1..];
    } else {
      UseOne(codes[1..], i - 1, now, which);
      assert later[1..] == codes[1..][i - 1 := codes[i].(consumedAt := Some(now))];
    }
  }

  predicate Balanced(state: Codes, userId: string, which: Option<string>, tally: Tally) {
    CountUnused(CodesOf(state, userId), which) + tally.spent == tally.issued
  }

  lemma BalanceStep(state: Codes, op: Op, userId: string, which: Option<string>, tally: Tally)
    requires Balanced(state, userId, which, tally)
    ensures Balanced(Apply(state, op), userId, which, Track(state, op, userId, which, tally))
  {
    if op.userId != userId {
      assert CodesOf(Apply(state, op), userId) == CodesOf(state, userId);
    } else {
      match op
      case Replaces(_, codes) => AllUnspent(codes, which);
      case Deletes(_) =>
      case Consumes(_, digest, now) =>
        if Usable(state, userId, digest) {
          UseOne(CodesOf(state, userId), FindUnused(CodesOf(state, userId), digest), now, which);
        }
    }
  }

  /**
   * Over any run, whatever other users do: the unused codes and those used since the set was last
   * replaced are the set that was issued, for each digest and in all.
   */
  lemma {:induction false} CodesAreConserved(state: Codes, ops: seq<Op>, userId: string, which: Option<string>,
                                             tally: Tally)
    requires Balanced(state, userId, which, tally)
    ensures Balanced(Run(state, ops), userId, which, TrackRun(state, ops, userId, which, tally))
    decreases |ops|
  {
    if ops == [] {
    } else {
      BalanceStep(state, ops[0], userId, which, tally);
      CodesAreConserved(Apply(state, ops[0]), ops[1..], userId, which, Track(state, ops[0], userId, which, tally));
    }
  }

  lemma {:induction false} UnusedIsFound(codes: seq<Code>, digest: string)
    ensures CountUnused(codes, Some(digest)) > 0 <==> FindUnused(codes, digest) < |codes|
  {
    if codes == [] {
    } else {
      UnusedIsFound(codes[1..], digest);
    }
  }

  /**
   * A code is accepted exactly as long as it has been used less often than it was issued: a digest
   * issued once is accepted once, one that was never issued to this user is not accepted at all.
   */
  lemma AcceptedExactlyWhileUnspent(ops: seq<Op>, userId: string, digest: string)
    ensures var tally := TrackRun(map[], ops, userId, Some(digest), Tally(0, 0));
            tally.spent <= tally.issued && (Usable(Run(map[], ops), userId, digest) <==> tally.spent < tally.issued)
  {
    CodesAreConserved(map[], ops, userId, Some(digest), Tally(0, 0));
    UnusedIsFound(CodesOf(Run(map[], ops), userId), digest);
  }
}
