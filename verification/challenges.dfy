/** Verification and reset challenges: one-time rows that may carry their secret in sealed form. */
module Challenges {
  import opened Text
  import opened Rows
  import opened Lifecycle

  datatype Data = Data(tokenDigest: string, sealedSecret: Option<string>, sealedKeyVersion: Option<string>)

  type Challenge = Row<Data>
  type ChallengeTable = Table<Data>

  datatype Sealed = Sealed(text: string, keyVersion: string)

  function FindSealedIfActive(rows: ChallengeTable, id: string, now: int): Option<Sealed> {
    if !Consumable(rows, id, now) then None
    else
      var data := Get(rows, id).payload;
      if data.sealedSecret.Some? && data.sealedKeyVersion.Some?
      then Some(Sealed(data.sealedSecret.value, data.sealedKeyVersion.value))
      else None
  }

  /** The sealed secret is given out as long as the challenge can be redeemed and carries both its parts. */
  lemma SealedExactly(rows: ChallengeTable, k: nat, now: int)
    requires Distinct(rows) && k < |rows|
    ensures var life := rows[k].value;
            FindSealedIfActive(rows, rows[k].id, now) ==
              match (life.payload.sealedSecret, life.payload.sealedKeyVersion)
              case (Some(text), Some(keyVersion)) =>
                if life.consumedAt == None && life.closedAt == None && now < life.expiresAt
                  then Some(Sealed(text, keyVersion)) else None
              case _ => None
  {
    ConsumableExactly(rows, k, now);
    GetIs(rows, k);
  }

  lemma NothingSealed(rows: ChallengeTable, id: string, now: int)
    requires forall k :: 0 <= k < |rows| ==> rows[k].id != id
    ensures FindSealedIfActive(rows, id, now) == None
  {}

  // ---- Removing the sealed secrets of expired challenges ----

  predicate Scrubbable(row: Challenge, now: int) { row.value.expiresAt <= now && row.value.payload.sealedSecret.Some? }

  function WithoutSecret(row: Challenge): Challenge {
    row.(value := row.value.(payload := row.value.payload.(sealedSecret := None, sealedKeyVersion := None)))
  }

  /** The first `limit` scrubbable rows, in order of insertion, lose their secret. */
  function Scrubbed(rows: ChallengeTable, now: int, limit: int): (r: ChallengeTable)
    ensures |r| == |rows|
  {
    if rows == [] || limit <= 0 then rows
    else if Scrubbable(rows[0], now) then [WithoutSecret(rows[0])] + Scrubbed(rows[1..], now, limit - 1)
    else [rows[0]] + Scrubbed(rows[1..], now, limit)
  }

  function CountScrubbable(rows: ChallengeTable, now: int): nat {
    if rows == [] then 0 else (if Scrubbable(rows[0], now) then 1 else 0) + CountScrubbable(rows[1..], now)
  }

  function Max(a: int, b: int): int { if a < b then b else a }
  function Min(a: int, b: int): int { if a < b then a else b }

  /** How many rows one call scrubs. */
  function ScrubCount(rows: ChallengeTable, now: int, limit: int): nat {
    Min(Max(limit, 0), CountScrubbable(rows, now))
  }

  lemma ScrubStep(done: ChallengeTable, rest: ChallengeTable, now: int, limit: int)
    requires rest != [] && limit > 0
    ensures Scrubbable(rest[0], now) ==>
              done + Scrubbed(rest, now, limit) == done + [WithoutSecret(rest[0])] + Scrubbed(rest[1..], now, limit - 1)
              && ScrubCount(rest, now, limit) == 1 + ScrubCount(rest[1..], now, limit - 1)
    ensures !Scrubbable(rest[0], now) ==>
              done + Scrubbed(rest, now, limit) == done + [rest[0]] + Scrubbed(rest[1..], now, limit)
              && ScrubCount(rest, now, limit) == ScrubCount(rest[1..], now, limit)
  {}

  /** The loop of `scrubExpiredSecrets` has dealt with `done`, and `rest` is what it has not seen. */
  predicate Halfway(rows: ChallengeTable, left: ChallengeTable, done: ChallengeTable, rest: ChallengeTable,
                    scrubbed: nat, now: int, limit: int)
  {
    left == done + rest && |left| == |rows| && (scrubbed == 0 || scrubbed <= limit)
    && Scrubbed(rows, now, limit) == done + Scrubbed(rest, now, limit - scrubbed)
    && ScrubCount(rows, now, limit) == scrubbed + ScrubCount(rest, now, limit - scrubbed)
  }

  lemma HalfwayStep(rows: ChallengeTable, left: ChallengeTable, done: ChallengeTable, rest: ChallengeTable,
                    scrubbed: nat, now: int, limit: int)
    requires Halfway(rows, left, done, rest, scrubbed, now, limit) && rest != [] && scrubbed < limit
    ensures |done| < |left| && left[|done|] == rest[0]
    ensures Scrubbable(rest[0], now) ==>
              var row := WithoutSecret(rest[0]);
              Halfway(rows, left[|done| := row], done + [row], rest[1..], scrubbed + 1, now, limit)
    ensures !Scrubbable(rest[0], now) ==> Halfway(rows, left, done + [rest[0]], rest[1..], scrubbed, now, limit)
  {
    ScrubStep(done, rest, now, limit - scrubbed);
    MoveOn(done, rest, WithoutSecret(rest[0]));
    MoveOn(done, rest, rest[0]);
    assert left[|done| := rest[0]] == left;
  }

  lemma HalfwayDone(rows: ChallengeTable, left: ChallengeTable, done: ChallengeTable, rest: ChallengeTable,
                    scrubbed: nat, now: int, limit: int)
    requires Halfway(rows, left, done, rest, scrubbed, now, limit) && (rest == [] || scrubbed >= limit)
    ensures left == Scrubbed(rows, now, limit) && scrubbed == ScrubCount(rows, now, limit)
  {}

  method ScrubExpiredSecrets(rows: ChallengeTable, now: int, limit: int) returns (left: ChallengeTable, scrubbed: nat)
    ensures left == Scrubbed(rows, now, limit)
    ensures scrubbed == ScrubCount(rows, now, limit)
  {
    left, scrubbed := rows, 0;
    ghost var done, rest: ChallengeTable := [], rows;
    for i := 0 to |rows|
      invariant |done| == i && |rest| == |rows| - i && |left| == |rows|
                && Halfway(rows, left, done, rest, scrubbed, now, limit)
    {
      if scrubbed >= limit {
        HalfwayDone(rows, left, done, rest, scrubbed, now, limit);
        return;
      }
      HalfwayStep(rows, left, done, rest, scrubbed, now, limit);
      if left[i].value.expiresAt <= now && left[i].value.payload.sealedSecret.Some? {
        left, scrubbed := left[i := WithoutSecret(left[i])], scrubbed + 1;
        done := done + [WithoutSecret(rest[0])];
      } else {
        done := done + [rest[0]];
      }
      rest := rest[1..];
    }
    HalfwayDone(rows, left, done, rest, scrubbed, now, limit);
  }

  lemma MoveOn(done: ChallengeTable, rest: ChallengeTable, row: Challenge)
    requires rest != []
    ensures (done + rest)[|done| := row] == done + [row] + rest[1..]
  {}

  /** The positions of expired challenges that still carry a secret. */
  function StillSealed(rows: ChallengeTable, now: int): set<nat> {
    set k: nat | k < |rows| && rows[k].value.expiresAt <= now && rows[k].value.payload.sealedSecret != None
  }

  lemma {:induction false} CountScrubbableIs(rows: ChallengeTable, now: int)
    ensures CountScrubbable(rows, now) == |StillSealed(rows, now)|
  {
    if rows == [] {
    } else {
      var n := |rows| - 1;
      CountScrubbableIs(rows[..n], now);
      CountScrubbableAdds(rows[..n], rows[n], now);
      assert rows[..n] + [rows[n]] == rows;
      if n in StillSealed(rows, now) {
        assert StillSealed(rows, now) == StillSealed(rows[..n], now) + {n};
      } else {
        assert StillSealed(rows, now) == StillSealed(rows[..n], now);
      }
    }
  }

  lemma {:induction false} CountScrubbableAdds(rows: ChallengeTable, row: Challenge, now: int)
    ensures CountScrubbable(rows + [row], now) == CountScrubbable(rows, now) + if Scrubbable(row, now) then 1 else 0
  {
    if rows == [] {
      NothingAdded([row]);
      RestOfCons(row, []);
    } else {
      RestOfConcat(rows, [row]);
      CountScrubbableAdds(rows[1..], row, now);
    }
  }

  /**
   * A row loses both parts of its secret exactly if it is expired, has a secret, and fewer than `limit`
   * rows in front of it are like that; nothing else about it changes.
   */
  lemma {:induction false} ScrubbedExactly(rows: ChallengeTable, now: int, limit: int, k: nat)
    requires k < |rows|
    ensures var data := rows[k].value.payload;
            Scrubbed(rows, now, limit)[k] ==
              if rows[k].value.expiresAt <= now && data.sealedSecret != None && CountScrubbable(rows[..k], now) < limit
              then rows[k].(value := rows[k].value.(payload := Data(data.tokenDigest, None, None)))
              else rows[k]
  {
    if limit <= 0 || k == 0 {
    } else {
      assert rows[..k][1..] == rows[1..][..k - 1];
      ScrubbedExactly(rows[1..], now, if Scrubbable(rows[0], now) then limit - 1 else limit, k - 1);
    }
  }

  /** Each call scrubs that many rows fewer. */
  lemma {:induction false} ScrubbingCounts(rows: ChallengeTable, now: int, limit: int)
    ensures CountScrubbable(Scrubbed(rows, now, limit), now)
         == CountScrubbable(rows, now) - Min(Max(limit, 0), CountScrubbable(rows, now))
  {
    if rows == [] || limit <= 0 {
    } else {
      var next := if Scrubbable(rows[0], now) then limit - 1 else limit;
      ScrubbingCounts(rows[1..], now, next);
      assert Scrubbed(rows, now, limit)[1..] == Scrubbed(rows[1..], now, next);
    }
  }

  function ScrubbedTimes(rows: ChallengeTable, now: int, limit: int, calls: nat): ChallengeTable
    decreases calls
  {
    if calls == 0 then rows else ScrubbedTimes(Scrubbed(rows, now, limit), now, limit, calls - 1)
  }

  /** Repeated calls drain the secrets, `limit` at a time, down to none. */
  lemma {:induction false} ScrubbingDrains(rows: ChallengeTable, now: int, limit: nat, calls: nat)
    ensures CountScrubbable(ScrubbedTimes(rows, now, limit, calls), now)
         == Max(CountScrubbable(rows, now) - calls * limit, 0)
    decreases calls
  {
    if calls == 0 {
    } else {
      ScrubbingCounts(rows, now, limit);
      ScrubbingDrains(Scrubbed(rows, now, limit), now, limit, calls - 1);
      OneMoreCall(calls, limit);
    }
  }

  lemma OneMoreCall(calls: nat, limit: nat)
    requires calls > 0
    ensures calls * limit == (calls - 1) * limit + limit && (calls - 1) * limit >= 0
  {}

  lemma {:induction false} ScrubbedAt(rows: ChallengeTable, now: int, limit: int, i: nat)
    requires i < |rows|
    ensures var row := Scrubbed(rows, now, limit)[i];
            row == rows[i] || (Scrubbable(rows[i], now) && row == WithoutSecret(rows[i]))
  {
    if limit <= 0 || i == 0 {
    } else {
      ScrubbedAt(rows[1..], now, if Scrubbable(rows[0], now) then limit - 1 else limit, i - 1);
    }
  }

  /** Scrubbing changes no lookup at the same or any later time. */
  lemma ScrubbingIsInvisible(rows: ChallengeTable, now: int, limit: int, id: string, t: int)
    requires Valid(rows) && t >= now
    ensures FindSealedIfActive(Scrubbed(rows, now, limit), id, t) == FindSealedIfActive(rows, id, t)
  {
    var left := Scrubbed(rows, now, limit);
    forall i | 0 <= i < |rows| ensures left[i].id == rows[i].id {
      ScrubbedAt(rows, now, limit, i);
    }
    SameIdsSameFind(rows, left, id);
    if Has(rows, id) {
      ScrubbedAt(rows, now, limit, Find(rows, id));
    }
  }

  lemma {:induction false} SameIdsSameFind(rows: ChallengeTable, left: ChallengeTable, id: string)
    requires |left| == |rows| && forall i :: 0 <= i < |rows| ==> left[i].id == rows[i].id
    ensures Find(left, id) == Find(rows, id)
  {
    if rows == [] {
    } else {
      SameIdsSameFind(rows[1..], left[1..], id);
    }
  }

  function Payloads(rows: ChallengeTable): seq<Data> {
    seq(|rows|, i requires 0 <= i < |rows| => rows[i].value.payload)
  }

  /** To the lifecycle of the rows, scrubbing is nothing but a change of what they carry. */
  lemma ScrubbingOnlyAmends(rows: ChallengeTable, now: int, limit: int)
    ensures Scrubbed(rows, now, limit) == Apply(rows, Amends(Payloads(Scrubbed(rows, now, limit))))
  {
    var left := Scrubbed(rows, now, limit);
    forall i | 0 <= i < |rows| ensures left[i] == rows[i].(value := rows[i].value.(payload := Payloads(left)[i])) {
      ScrubbedAt(rows, now, limit, i);
    }
  }
}
