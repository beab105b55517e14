/** Sessions: one table, written through by the session service and by the account surface. */
module Sessions {
  import opened Text
  import opened Rows

  datatype Session = Session(userId: string, tokenHash: string, csrfTokenHash: string, createdAt: int, lastSeenAt: int,
                             expiresAt: int, revokedAt: Option<int>, revocationReason: Option<string>)

  type SessionTable = seq<Entry<Session>>

  datatype Listed = Listed(sessionId: string, createdAt: int, lastSeenAt: int, expiresAt: int)

  predicate ActiveFor(row: Entry<Session>, userId: string) {
    row.value.userId == userId && row.value.revokedAt.None?
  }

  // ---- The operations as functions ----

  function Revoked(session: Session, at: int, reason: string): Session {
    session.(revokedAt := Some(at), revocationReason := Some(reason))
  }

  function Create(rows: SessionTable, id: string, userId: string, tokenHash: string, csrfTokenHash: string,
                  createdAt: int, expiresAt: int): SessionTable
  {
    Put(rows, id, Session(userId, tokenHash, csrfTokenHash, createdAt, createdAt, expiresAt, None, None))
  }

  function Touch(rows: SessionTable, id: string, at: int): SessionTable {
    if Has(rows, id) then Put(rows, id, Get(rows, id).(lastSeenAt := at)) else rows
  }

  function Revoke(rows: SessionTable, id: string, at: int, reason: string): SessionTable {
    if Has(rows, id) && Get(rows, id).revokedAt.None? then Put(rows, id, Revoked(Get(rows, id), at, reason)) else rows
  }

  predicate Owns(rows: SessionTable, userId: string, id: string) {
    Has(rows, id) && ActiveFor(Entry(id, Get(rows, id)), userId)
  }

  function RevokeOwned(rows: SessionTable, userId: string, id: string, at: int, reason: string): SessionTable {
    if Owns(rows, userId, id) then Put(rows, id, Revoked(Get(rows, id), at, reason)) else rows
  }

  /** Whether a bulk revocation for the user hits the row; `keep` is the session spared, if any. */
  predicate Hit(row: Entry<Session>, userId: string, keep: Option<string>) {
    ActiveFor(row, userId) && Some(row.id) != keep
  }

  function RevokeAll(rows: SessionTable, userId: string, keep: Option<string>, at: int, reason: string): SessionTable {
    seq(|rows|, i requires 0 <= i < |rows| =>
      if Hit(rows[i], userId, keep) then Entry(rows[i].id, Revoked(rows[i].value, at, reason)) else rows[i])
  }

  /** What the row adds to the user's list: one line if it is active, none otherwise. */
  function Line(row: Entry<Session>, userId: string): seq<Listed> {
    if ActiveFor(row, userId)
    then [Listed(row.id, row.value.createdAt, row.value.lastSeenAt, row.value.expiresAt)]
    else []
  }

  function ListActive(rows: SessionTable, userId: string): seq<Listed> {
    if rows == [] then [] else ListActive(rows[..|rows| - 1], userId) + Line(rows[|rows| - 1], userId)
  }

  function CountHit(rows: SessionTable, userId: string, keep: Option<string>): nat {
    if rows == [] then 0
    else CountHit(rows[..|rows| - 1], userId, keep) + if Hit(rows[|rows| - 1], userId, keep) then 1 else 0
  }

  /** The loop of the two bulk revocations: it returns by how many the user's list has shrunk. */
  method RevokeAllRows(rows: SessionTable, userId: string, keep: Option<string>, at: int, reason: string)
    returns (left: SessionTable, count: nat)
    ensures left == RevokeAll(rows, userId, keep, at, reason)
    ensures count == |ListActive(rows, userId)| - |ListActive(left, userId)|
  {
    left, count := rows, 0;
    for i := 0 to |rows|
      invariant |left| == |rows| && count == CountHit(rows[..i], userId, keep)
      invariant left[..i] == RevokeAll(rows, userId, keep, at, reason)[..i] && left[i..] == rows[i..]
    {
      assert rows[..i + 1][..i] == rows[..i];
      assert left[i] == left[i..][0] == rows[i..][0];
      if !(left[i].value.userId != userId || Some(left[i].id) == keep || left[i].value.revokedAt.Some?) {
        left := left[i := Entry(left[i].id, Revoked(left[i].value, at, reason))];
        count := count + 1;
      }
      assert left[i + 1..] == rows[i + 1..];
    }
    assert rows[..|rows|] == rows && left[..|rows|] == left;
    ListShrinks(rows, userId, keep, at, reason);
  }

  lemma RevokeAllButLast(rows: SessionTable, userId: string, keep: Option<string>, at: int, reason: string)
    requires rows != []
    ensures RevokeAll(rows, userId, keep, at, reason)[..|rows| - 1] ==
            RevokeAll(rows[..|rows| - 1], userId, keep, at, reason)
  {}

  lemma {:induction false} ListShrinks(rows: SessionTable, userId: string, keep: Option<string>, at: int,
                                       reason: string)
    ensures CountHit(rows, userId, keep)
         == |ListActive(rows, userId)| - |ListActive(RevokeAll(rows, userId, keep, at, reason), userId)|
  {
    if rows == [] {
    } else {
      RevokeAllButLast(rows, userId, keep, at, reason);
      ListShrinks(rows[..|rows| - 1], userId, keep, at, reason);
    }
  }

  // ---- Bulk revocation ----

  function KeepOnly(listed: seq<Listed>, keep: Option<string>): seq<Listed> {
    if listed == [] then []
    else KeepOnly(listed[..|listed| - 1], keep)
         + if Some(listed[|listed| - 1].sessionId) == keep then [listed[|listed| - 1]] else []
  }

  lemma KeepOnlyAppends(listed: seq<Listed>, more: seq<Listed>, keep: Option<string>)
    requires |more| <= 1
    ensures KeepOnly(listed + more, keep) == KeepOnly(listed, keep) + KeepOnly(more, keep)
  {
    if more == [] {
      assert listed + more == listed;
    } else {
      assert (listed + more)[..|listed|] == listed && more[..0] == [];
    }
  }

  lemma KeptLine(row: Entry<Session>, userId: string, keep: Option<string>, at: int, reason: string)
    ensures var left := if Hit(row, userId, keep) then Entry(row.id, Revoked(row.value, at, reason)) else row;
            Line(left, userId) == KeepOnly(Line(row, userId), keep)
  {}

  /** Afterwards the user's list holds the spared session at most, and nobody else's list has changed. */
  lemma {:induction false} RevokeAllLeaves(rows: SessionTable, userId: string, keep: Option<string>, at: int,
                                           reason: string,
                                           other: string)
    ensures var left := RevokeAll(rows, userId, keep, at, reason);
            ListActive(left, userId) == KeepOnly(ListActive(rows, userId), keep)
            && (other != userId ==> ListActive(left, other) == ListActive(rows, other))
  {
    if rows == [] {
    } else {
      var init, last := rows[..|rows| - 1], rows[|rows| - 1];
      RevokeAllLeaves(init, userId, keep, at, reason, other);
      RevokeAllButLast(rows, userId, keep, at, reason);
      KeepOnlyAppends(ListActive(init, userId), Line(last, userId), keep);
      KeptLine(last, userId, keep, at, reason);
    }
  }

  // ---- What each operation changes ----

  lemma CreateAdds(rows: SessionTable, id: string, userId: string, tokenHash: string, csrfTokenHash: string,
                   createdAt: int, expiresAt: int)
    requires forall k :: 0 <= k < |rows| ==> rows[k].id != id
    ensures Create(rows, id, userId, tokenHash, csrfTokenHash, createdAt, expiresAt) ==
            rows + [Entry(id, Session(userId, tokenHash, csrfTokenHash, createdAt, createdAt, expiresAt, None, None))]
  {}

  lemma TouchMarks(rows: SessionTable, id: string, at: int)
    requires Distinct(rows)
    ensures var later := Touch(rows, id, at);
            ChangedAt(rows, later, id)
            && forall k :: 0 <= k < |rows| && rows[k].id == id ==> later[k].value == rows[k].value.(lastSeenAt := at)
  {
    forall k | 0 <= k < |rows| && rows[k].id == id ensures Find(rows, id) == k {
      FindIs(rows, k);
    }
  }

  /** The moment and the reason, if the session was not revoked before. */
  function Ended(session: Session, at: int, reason: string): Session {
    if session.revokedAt != None then session
    else Session(session.userId, session.tokenHash, session.csrfTokenHash, session.createdAt, session.lastSeenAt,
                 session.expiresAt, Some(at), Some(reason))
  }

  /** A revocation by id writes its moment and its reason into that session if it is active, and nothing else. */
  lemma RevokeMarks(rows: SessionTable, id: string, at: int, reason: string)
    requires Distinct(rows)
    ensures var later := Revoke(rows, id, at, reason);
            ChangedAt(rows, later, id)
            && forall k :: 0 <= k < |rows| && rows[k].id == id ==> later[k].value == Ended(rows[k].value, at, reason)
  {
    forall k | 0 <= k < |rows| && rows[k].id == id ensures Find(rows, id) == k {
      FindIs(rows, k);
    }
  }

  lemma RevokeOwnedMarks(rows: SessionTable, userId: string, id: string, at: int, reason: string)
    requires Distinct(rows)
    ensures var later := RevokeOwned(rows, userId, id, at, reason);
            ChangedAt(rows, later, id)
            && forall k :: 0 <= k < |rows| && rows[k].id == id ==>
                 later[k].value == if rows[k].value.userId == userId then Ended(rows[k].value, at, reason)
                     else rows[k].value
  {
    forall k | 0 <= k < |rows| && rows[k].id == id ensures Find(rows, id) == k {
      FindIs(rows, k);
    }
  }

  /** A bulk revocation does the same to every session of the user but the one that is spared. */
  lemma RevokeAllMarks(rows: SessionTable, userId: string, keep: Option<string>, at: int, reason: string)
    ensures var later := RevokeAll(rows, userId, keep, at, reason);
            |later| == |rows|
            && forall k :: 0 <= k < |rows| ==>
                 later[k].id == rows[k].id
                 && later[k].value == if rows[k].value.userId == userId && keep != Some(rows[k].id)
                                        then Ended(rows[k].value, at, reason) else rows[k].value
  {}

  // ---- The list of active sessions ----

  /** The list holds one line for each active session of the user, in the order of the table. */
  lemma {:induction false} ListAppends(a: SessionTable, b: SessionTable, userId: string)
    ensures ListActive(a + b, userId) == ListActive(a, userId) + ListActive(b, userId)
  {
    if b == [] {
      NothingAdded(a);
      NothingAdded(ListActive(a, userId));
    } else {
      var n := |b| - 1;
      assert (a + b)[..|a| + n] == a + b[..n] && (a + b)[|a| + n] == b[n];
      ListAppends(a, b[..n], userId);
      Associative(ListActive(a, userId), ListActive(b[..n], userId), Line(b[n], userId));
    }
  }

  lemma ListOfOne(row: Entry<Session>, userId: string)
    ensures ListActive([row], userId) ==
            if row.value.userId == userId && row.value.revokedAt == None
            then [Listed(row.id, row.value.createdAt, row.value.lastSeenAt, row.value.expiresAt)]
            else []
  {
    assert [row][..0] == [];
  }

  /** The lines of other sessions. */
  function Without(listed: seq<Listed>, id: string): seq<Listed> {
    if listed == [] then []
    else Without(listed[..|listed| - 1], id) + if listed[|listed| - 1].sessionId == id then []
        else [listed[|listed| - 1]]
  }

  lemma WithoutAppends(listed: seq<Listed>, more: seq<Listed>, id: string)
    requires |more| <= 1
    ensures Without(listed + more, id) == Without(listed, id) + Without(more, id)
  {
    if more == [] {
      NothingAdded(listed);
      NothingAdded(Without(listed, id));
    } else {
      assert (listed + more)[..|listed|] == listed && more[..0] == [];
    }
  }

  lemma WithoutLine(row: Entry<Session>, later: Entry<Session>, userId: string, id: string, at: int, reason: string)
    requires later.id == row.id && later.value == if row.id == id then Ended(row.value, at, reason) else row.value
    ensures Line(later, userId) == Without(Line(row, userId), id)
  {}

  /** Of every user's list, a revocation by id takes away the line of that session, and no other. */
  lemma RevokeLeaves(rows: SessionTable, id: string, at: int, reason: string, userId: string)
    requires Distinct(rows)
    ensures ListActive(Revoke(rows, id, at, reason), userId) == Without(ListActive(rows, userId), id)
  {
    var later := Revoke(rows, id, at, reason);
    RevokeMarks(rows, id, at, reason);
    forall k | 0 <= k < |rows|
      ensures later[k].id == rows[k].id
      ensures later[k].value == if rows[k].id == id then Ended(rows[k].value, at, reason) else rows[k].value
    {}
    ListWithout(rows, later, id, at, reason, userId);
  }

  lemma {:induction false} ListWithout(rows: SessionTable, later: SessionTable, id: string, at: int, reason: string,
                                       userId: string)
    requires |later| == |rows|
    requires forall k :: 0 <= k < |rows| ==>
      later[k].id == rows[k].id && later[k].value == if rows[k].id == id then Ended(rows[k].value, at, reason)
          else rows[k].value
    ensures ListActive(later, userId) == Without(ListActive(rows, userId), id)
  {
    if rows == [] {
    } else {
      var n := |rows| - 1;
      ListWithout(rows[..n], later[..n], id, at, reason, userId);
      WithoutLine(rows[n], later[n], userId, id, at, reason);
      WithoutAppends(ListActive(rows[..n], userId), Line(rows[n], userId), id);
    }
  }

  /** Nobody's list holds the session afterwards. */
  lemma {:induction false} WithoutHoldsNone(listed: seq<Listed>, id: string)
    ensures forall k :: 0 <= k < |Without(listed, id)| ==> Without(listed, id)[k].sessionId != id
  {
    if listed == [] {
    } else {
      WithoutHoldsNone(listed[..|listed| - 1], id);
    }
  }

  // ---- Runs ----

  datatype Op =
    | Creates(id: string, userId: string, tokenHash: string, csrfTokenHash: string, createdAt: int, expiresAt: int)
    | Touches(id: string, at: int)
    | Revokes(id: string, at: int, reason: string)
    | RevokesOwned(userId: string, id: string, at: int, reason: string)
    | RevokesAll(userId: string, keep: Option<string>, at: int, reason: string)

  function Apply(rows: SessionTable, op: Op): SessionTable {
    match op
    case Creates(id, userId, tokenHash, csrf, createdAt, expiresAt) =>
      Create(rows, id, userId, tokenHash, csrf, createdAt, expiresAt)
    case Touches(id, at) => Touch(rows, id, at)
    case Revokes(id, at, reason) => Revoke(rows, id, at, reason)
    case RevokesOwned(userId, id, at, reason) => RevokeOwned(rows, userId, id, at, reason)
    case RevokesAll(userId, keep, at, reason) => RevokeAll(rows, userId, keep, at, reason)
  }

  function Run(rows: SessionTable, ops: seq<Op>): SessionTable
    decreases |ops|
  {
    if ops == [] then rows else Run(Apply(rows, ops[0]), ops[1..])
  }

  lemma {:induction false} RunOneMore(rows: SessionTable, ops: seq<Op>, op: Op)
    ensures Run(rows, ops + [op]) == Apply(Run(rows, ops), op)
    decreases |ops|
  {
    if ops == [] {
      assert [op][1..] == [];
    } else {
      assert (ops + [op])[1..] == ops[1..] + [op];
      RunOneMore(Apply(rows, ops[0]), ops[1..], op);
    }
  }

  predicate Fresh(rows: SessionTable, op: Op) { op.Creates? ==> !Has(rows, op.id) }

  predicate FreshRun(rows: SessionTable, ops: seq<Op>)
    decreases |ops|
  {
    ops == [] || (Fresh(rows, ops[0]) && FreshRun(Apply(rows, ops[0]), ops[1..]))
  }

  function Created(ops: seq<Op>, userId: string): nat {
    if ops == [] then 0
    else (if ops[0].Creates? && ops[0].userId == userId then 1 else 0) + Created(ops[1..], userId)
  }

  predicate RevokedFor(row: Entry<Session>, userId: string) {
    row.value.userId == userId && row.value.revokedAt.Some?
  }

  function CountRevoked(rows: SessionTable, userId: string): nat {
    if rows == [] then 0
    else CountRevoked(rows[..|rows| - 1], userId) + if RevokedFor(rows[|rows| - 1], userId) then 1 else 0
  }

  function CountOf(rows: SessionTable, userId: string): nat {
    if rows == [] then 0
    else CountOf(rows[..|rows| - 1], userId) + if rows[|rows| - 1].value.userId == userId then 1 else 0
  }

  lemma {:induction false} ActiveOrRevoked(rows: SessionTable, userId: string)
    ensures |ListActive(rows, userId)| + CountRevoked(rows, userId) == CountOf(rows, userId)
  {
    if rows == [] {
    } else {
      ActiveOrRevoked(rows[..|rows| - 1], userId);
    }
  }

  lemma {:induction false} SameUsersSameCount(rows: SessionTable, later: SessionTable, userId: string)
    requires |rows| == |later| && forall i :: 0 <= i < |rows| ==> rows[i].value.userId == later[i].value.userId
    ensures CountOf(later, userId) == CountOf(rows, userId)
  {
    if rows == [] {
    } else {
      SameUsersSameCount(rows[..|rows| - 1], later[..|rows| - 1], userId);
    }
  }

  /** A revocation is final, with its moment and its reason; a session keeps its owner and its birth. */
  predicate Advanced(row: Entry<Session>, later: Entry<Session>) {
    && later.id == row.id && later.value.userId == row.value.userId && later.value.createdAt == row.value.createdAt
    && (row.value.revokedAt.Some? ==>
          later.value.revokedAt == row.value.revokedAt && later.value.revocationReason == row.value.revocationReason)
  }

  predicate TableAdvanced(rows: SessionTable, later: SessionTable) {
    |rows| <= |later| && forall i :: 0 <= i < |rows| ==> Advanced(rows[i], later[i])
  }

  lemma ApplyKeepsDistinct(rows: SessionTable, op: Op)
    requires Distinct(rows)
    ensures Distinct(Apply(rows, op))
  {}

  lemma PutAdvances(rows: SessionTable, id: string, session: Session)
    requires Distinct(rows) && (Has(rows, id) ==> Advanced(Entry(id, Get(rows, id)), Entry(id, session)))
    ensures var later := Put(rows, id, session);
            Distinct(later) && TableAdvanced(rows, later) && |later| == |rows| + if Has(rows, id) then 0 else 1
  {}

  lemma ApplyAdvances(rows: SessionTable, op: Op)
    requires Distinct(rows) && Fresh(rows, op)
    ensures Distinct(Apply(rows, op)) && TableAdvanced(rows, Apply(rows, op))
    ensures |Apply(rows, op)| == |rows| + if op.Creates? then 1 else 0
  {
    match op
    case Creates(id, userId, tokenHash, csrf, createdAt, expiresAt) =>
      PutAdvances(rows, id, Session(userId, tokenHash, csrf, createdAt, createdAt, expiresAt, None, None));
    case Touches(id, at) =>
      if Has(rows, id) { PutAdvances(rows, id, Get(rows, id).(lastSeenAt := at)); }
    case Revokes(id, at, reason) =>
      if Has(rows, id) && Get(rows, id).revokedAt.None? { PutAdvances(rows, id, Revoked(Get(rows, id), at, reason)); }
    case RevokesOwned(userId, id, at, reason) =>
      if Owns(rows, userId, id) { PutAdvances(rows, id, Revoked(Get(rows, id), at, reason)); }
    case RevokesAll(userId, keep, at, reason) =>
  }

  lemma CountStep(rows: SessionTable, op: Op, userId: string)
    requires Distinct(rows) && Fresh(rows, op)
    ensures CountOf(Apply(rows, op), userId) ==
            CountOf(rows, userId) + if op.Creates? && op.userId == userId then 1 else 0
  {
    var later := Apply(rows, op);
    ApplyAdvances(rows, op);
    SameUsersSameCount(rows, later[..|rows|], userId);
    if op.Creates? {
      assert later[..|later| - 1] == later[..|rows|];
    } else {
      assert later[..|rows|] == later;
    }
  }

  /**
   * Over any run with fresh ids: each user's active sessions and revoked sessions together are the
   * sessions created, and the first revocation's moment and reason never change.
   */
  lemma {:induction false} SessionsAreConserved(rows: SessionTable, ops: seq<Op>, userId: string)
    requires Distinct(rows) && FreshRun(rows, ops)
    ensures var later := Run(rows, ops);
            |ListActive(later, userId)| + CountRevoked(later, userId) == CountOf(rows, userId) + Created(ops, userId)
            && TableAdvanced(rows, later) && Distinct(later)
    decreases |ops|
  {
    if ops == [] {
      ActiveOrRevoked(rows, userId);
    } else {
      ApplyAdvances(rows, ops[0]);
      CountStep(rows, ops[0], userId);
      SessionsAreConserved(Apply(rows, ops[0]), ops[1..], userId);
    }
  }

  /** Nobody can end a session of somebody else: the attempt fails and changes nothing. */
  lemma OnlyOwnSessions(rows: SessionTable, userId: string, id: string, at: int, reason: string)
    requires Distinct(rows)
    ensures var left := RevokeOwned(rows, userId, id, at, reason);
            (left != rows <==> Owns(rows, userId, id))
            && (Owns(rows, userId, id) ==> !Owns(left, userId, id))
            && forall other, j :: j != id || other != userId ==> (Owns(left, other, j) <==> Owns(rows, other, j))
  {
    var left := RevokeOwned(rows, userId, id, at, reason);
    forall other, j | j != id || other != userId ensures Owns(left, other, j) <==> Owns(rows, other, j) {
      if Owns(rows, userId, id) {
        PutGet(rows, id, Revoked(Get(rows, id), at, reason), j);
      }
    }
    if Owns(rows, userId, id) {
      PutGet(rows, id, Revoked(Get(rows, id), at, reason), id);
    }
  }
}
