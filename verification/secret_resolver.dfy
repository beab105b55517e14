/**
 * Resolving the one-time secret that a notification carries: sealed into the notification itself,
 * or behind a challenge whose row keeps it in sealed form.
 */
module SecretResolver {
  import opened Text
  import opened Rows
  import Lifecycle
  import opened Challenges
  import Base64
  import opened SecretBox

  datatype SecretRef = SealedRef(sealed: string) | ChallengeRef(challengeId: string)
  datatype Source = Source(kind: string, sourceId: string)

  datatype Reason = SecretRevoked | SecretExpired
  datatype Resolution = Available(secret: string) | Unusable(reason: Reason)

  const SEALED_SOURCE_KINDS := {"SIGNING_ACCESS_GRANT", "FINAL_COPY_GRANT", "WORKSPACE_JOIN_TICKET"}

  /** A resolver without a key has no box; a key of the wrong length makes no resolver at all. */
  function BoxOf(key: Option<string>, keyVersion: string): Result<Option<Box>> {
    match key
    case None => Ok(None)
    case Some(text) =>
      match CreateSecretBox(text, keyVersion)
      case Ok(box) => Ok(Some(box))
      case Err(e) => Err(e)
  }

  function Opened(cipher: Cipher, box: Box, sealed: string): Resolution {
    match Open(cipher, box, sealed)
    case Ok(secret) => Available(secret)
    case Err(_) => Unusable(SecretExpired)
  }

  /** `usable` is the answer of the domain that issued the credential. */
  function ResolveSealed(cipher: Cipher, box: Option<Box>, usable: (string, string, string) -> bool,
                         ref: SecretRef, source: Source): Resolution
  {
    if !ref.SealedRef? || box.None? || source.kind !in SEALED_SOURCE_KINDS then Unusable(SecretRevoked)
    else if !usable(source.sourceId, source.kind, ref.sealed) then Unusable(SecretRevoked)
    else Opened(cipher, box.value, ref.sealed)
  }

  /** Each source kind that owns challenges has its lookup. */
  function ResolveChallenge(cipher: Cipher, box: Option<Box>, lookups: map<string, (string, int) -> Option<Sealed>>,
                            now: int, ref: SecretRef, source: Source): Resolution
  {
    if !ref.ChallengeRef? || source.kind !in lookups || box.None? then Unusable(SecretRevoked)
    else
      match lookups[source.kind](ref.challengeId, now)
      case None => Unusable(SecretExpired)
      case Some(found) => Opened(cipher, box.value, found.text)
  }

  function Resolve(cipher: Cipher, box: Option<Box>, usable: (string, string, string) -> bool,
                   lookups: map<string, (string, int) -> Option<Sealed>>, now: int, ref: SecretRef,
                   source: Source): Resolution
  {
    match ref
    case SealedRef(_) => ResolveSealed(cipher, box, usable, ref, source)
    case ChallengeRef(_) => ResolveChallenge(cipher, box, lookups, now, ref, source)
  }

  /**
   * A secret that was sealed for a notification is delivered as it was exactly while its own domain
   * still vouches for it, and is reported revoked otherwise.
   */
  lemma SealedIsDeliveredWhileVouchedFor(cipher: Cipher, box: Box, usable: (string, string, string) -> bool,
                                         lookups: map<string, (string, int) -> Option<Sealed>>, now: int,
                                         iv: seq<byte>, plain: string, source: Source)
    requires Correct(cipher) && |iv| == IV_BYTES
    ensures var sealed := Seal(cipher, box, iv, plain);
            Resolve(cipher, Some(box), usable, lookups, now, SealedRef(sealed), source)
            == if source.kind in SEALED_SOURCE_KINDS && usable(source.sourceId, source.kind, sealed)
               then Available(plain) else Unusable(SecretRevoked)
  {
    OpenSeal(cipher, box, iv, plain);
  }

  /** The text opens to the secret. */
  ghost predicate OpensTo(cipher: Cipher, box: Box, sealed: string, secret: string) {
    exists iv, text, tag ::
      Opens(cipher, box, iv, text, tag, secret) && sealed == Join([FORMAT_VERSION, iv, text, tag], '.')
  }

  /**
   * For any sealed text: revoked without a key, for a kind that is not listed, or when its domain does not
   * vouch for it; otherwise what it opens to, or expired if it does not open.
   */
  lemma SealedResolvesExactly(cipher: Cipher, box: Option<Box>, usable: (string, string, string) -> bool,
                              lookups: map<string, (string, int) -> Option<Sealed>>, now: int, sealed: string,
                              source: Source, secret: string)
    ensures var resolution := Resolve(cipher, box, usable, lookups, now, SealedRef(sealed), source);
            && (resolution == Unusable(SecretRevoked) <==>
                  box == None || source.kind !in {"SIGNING_ACCESS_GRANT", "FINAL_COPY_GRANT", "WORKSPACE_JOIN_TICKET"}
                  || !usable(source.sourceId, source.kind, sealed))
            && (resolution != Unusable(SecretRevoked) ==>
                  (resolution == Available(secret) <==> OpensTo(cipher, box.value, sealed, secret))
                  && (resolution == Unusable(SecretExpired) <==> Open(cipher, box.value, sealed).Err?))
  {
    if box.Some? {
      OpensExactly(cipher, box.value, sealed, secret);
    }
  }

  /** For any challenge: revoked without a key or a lookup of its kind, expired if nothing is found or opens. */
  lemma ChallengeResolvesExactly(cipher: Cipher, box: Option<Box>, usable: (string, string, string) -> bool,
                                 lookups: map<string, (string, int) -> Option<Sealed>>, now: int, id: string,
                                 source: Source, secret: string)
    ensures var resolution := Resolve(cipher, box, usable, lookups, now, ChallengeRef(id), source);
            && (resolution == Unusable(SecretRevoked) <==> box == None || source.kind !in lookups)
            && (resolution != Unusable(SecretRevoked) ==>
                  var found := lookups[source.kind](id, now);
                  && (resolution == Available(secret) <==>
                        found.Some? && OpensTo(cipher, box.value, found.value.text, secret))
                  && (resolution == Unusable(SecretExpired) <==>
                        found == None || Open(cipher, box.value, found.value.text).Err?))
  {
    if box.Some? && source.kind in lookups {
      var found := lookups[source.kind](id, now);
      if found.Some? {
        OpensExactly(cipher, box.value, found.value.text, secret);
      }
    }
  }

  /**
   * There is a resolver unless a key is given that does not decode to 32 bytes, and without a key it
   * reports every secret as revoked.
   */
  lemma KeyDecides(cipher: Cipher, key: Option<string>, keyVersion: string, usable: (string, string, string) -> bool,
                   lookups: map<string, (string, int) -> Option<Sealed>>, now: int, ref: SecretRef, source: Source)
    ensures BoxOf(key, keyVersion).Err? <==> key.Some? && |Base64.Decode(key.value)| != KEY_BYTES
    ensures key.None? ==>
              Resolve(cipher, BoxOf(key, keyVersion).value, usable, lookups, now, ref, source)
                == Unusable(SecretRevoked)
  {}

  /** With a generated key there is a resolver, and it delivers what a box with that key has sealed. */
  lemma GeneratedKeyResolves(cipher: Cipher, random: seq<byte>, keyVersion: string,
                             usable: (string, string, string) -> bool,
                             lookups: map<string, (string, int) -> Option<Sealed>>, now: int, iv: seq<byte>,
                             plain: string, source: Source)
    requires Correct(cipher) && |random| == KEY_BYTES && |iv| == IV_BYTES && source.kind in SEALED_SOURCE_KINDS
    ensures var sealed := Seal(cipher, Box(random, keyVersion), iv, plain);
            var made := BoxOf(Some(GenerateSecretBoxKey(random)), keyVersion);
            made.Ok? && (usable(source.sourceId, source.kind, sealed) ==>
                           Resolve(cipher, made.value, usable, lookups, now, SealedRef(sealed), source)
                             == Available(plain))
  {
    GeneratedKeyIsAccepted(random, keyVersion);
    SealedIsDeliveredWhileVouchedFor(cipher, Box(random, keyVersion), usable, lookups, now, iv, plain, source);
  }

  // ---- The life of a challenge's secret ----

  /** What happens to a challenge table: steps of the rows' lives, and the removal of old secrets. */
  datatype Op =
    | Creates(id: string, userId: string, createdAt: int, expiresAt: int, data: Data)
    | Consumes(id: string, now: int)
    | Supersedes(userId: string, now: int)
    | Scrubs(now: int, limit: int)

  /** The same step as a step of a one-time row's life; removing secrets changes only what rows carry. */
  function AsLife(rows: ChallengeTable, op: Op): Lifecycle.Op<Data> {
    match op
    case Creates(id, userId, createdAt, expiresAt, data) => Lifecycle.Creates(id, userId, createdAt, expiresAt, data)
    case Consumes(id, now) => Lifecycle.Consumes(id, now)
    case Supersedes(userId, now) => Lifecycle.Closes(userId, now)
    case Scrubs(now, limit) => Lifecycle.Amends(Payloads(Scrubbed(rows, now, limit)))
  }

  function Apply(rows: ChallengeTable, op: Op): ChallengeTable {
    if op.Scrubs? then Scrubbed(rows, op.now, op.limit) else Lifecycle.Apply(rows, AsLife(rows, op))
  }

  function Run(rows: ChallengeTable, ops: seq<Op>): ChallengeTable
    decreases |ops|
  {
    if ops == [] then rows else Run(Apply(rows, ops[0]), ops[1..])
  }

  /** Ids are fresh, and secrets are removed no later than `until`. */
  predicate Regular(rows: ChallengeTable, op: Op, until: int) {
    (op.Creates? ==> !Has(rows, op.id)) && (op.Scrubs? ==> op.now <= until)
  }

  predicate RegularRun(rows: ChallengeTable, ops: seq<Op>, until: int)
    decreases |ops|
  {
    ops == [] || (Regular(rows, ops[0], until) && RegularRun(Apply(rows, ops[0]), ops[1..], until))
  }

  /** The row still has the secret it was created with, or has expired by then. */
  predicate Carries(rows: ChallengeTable, id: string, sealed: Sealed, until: int) {
    Has(rows, id) &&
    var row := Get(rows, id);
    row.expiresAt <= until || row.payload.(tokenDigest := "") == Data("", Some(sealed.text), Some(sealed.keyVersion))
  }

  lemma LifeKeepsSecret(rows: ChallengeTable, op: Lifecycle.Op<Data>, id: string)
    requires Lifecycle.Valid(rows) && Lifecycle.Fresh(rows, op) && Has(rows, id) && !op.Amends?
    ensures var later := Lifecycle.Apply(rows, op);
            Lifecycle.Valid(later) && Has(later, id) && Get(later, id).payload == Get(rows, id).payload
            && Get(later, id).expiresAt == Get(rows, id).expiresAt
  {
    var later, i := Lifecycle.Apply(rows, op), Find(rows, id);
    Lifecycle.ApplyKeepsValid(rows, op);
    Lifecycle.ApplyAdvances(rows, op);
    assert Lifecycle.Advanced(rows[i], later[i]);
    FindIs(later, i);
  }

  lemma ScrubKeepsSecret(rows: ChallengeTable, now: int, limit: int, id: string)
    requires Lifecycle.Valid(rows) && Has(rows, id)
    ensures var later := Scrubbed(rows, now, limit);
            Lifecycle.Valid(later) && Has(later, id) && Get(later, id).expiresAt == Get(rows, id).expiresAt
            && (Get(later, id).payload == Get(rows, id).payload || Get(rows, id).expiresAt <= now)
  {
    var later, i := Scrubbed(rows, now, limit), Find(rows, id);
    ScrubbingOnlyAmends(rows, now, limit);
    Lifecycle.ApplyKeepsValid(rows, Lifecycle.Amends(Payloads(later)));
    ScrubbedAt(rows, now, limit, i);
    FindIs(later, i);
  }

  lemma {:induction false} RunKeepsSecret(rows: ChallengeTable, ops: seq<Op>, id: string, sealed: Sealed, until: int)
    requires Lifecycle.Valid(rows) && Carries(rows, id, sealed, until) && RegularRun(rows, ops, until)
    ensures Carries(Run(rows, ops), id, sealed, until)
    decreases |ops|
  {
    if ops == [] {
    } else {
      if ops[0].Scrubs? {
        ScrubKeepsSecret(rows, ops[0].now, ops[0].limit, id);
      } else {
        LifeKeepsSecret(rows, AsLife(rows, ops[0]), id);
      }
      RunKeepsSecret(Apply(rows, ops[0]), ops[1..], id, sealed, until);
    }
  }

  /** The store's own lookup, for one source kind. */
  function LookupIn(rows: ChallengeTable, kind: string): map<string, (string, int) -> Option<Sealed>> {
    map[kind := (id, now) => FindSealedIfActive(rows, id, now)]
  }

  /**
   * A challenge created with its secret sealed: after any run of creations, redemptions,
   * supersessions and removals of expired secrets, the secret is available exactly while redeeming
   * the challenge would succeed, it is then the secret that was sealed, and it is reported expired
   * at any other time.
   */
  lemma AvailableExactlyWhileRedeemable(cipher: Cipher, box: Box, usable: (string, string, string) -> bool,
                                        iv: seq<byte>, plain: string, rows: ChallengeTable, id: string, userId: string,
                                        createdAt: int, expiresAt: int, digest: string, ops: seq<Op>, now: int,
                                        source: Source)
    requires Correct(cipher) && |iv| == IV_BYTES && Lifecycle.Valid(rows) && !Has(rows, id)
    requires var data := Data(digest, Some(Seal(cipher, box, iv, plain)), Some(box.keyVersion));
             RegularRun(Lifecycle.Create(rows, id, userId, createdAt, expiresAt, data), ops, now)
    ensures var data := Data(digest, Some(Seal(cipher, box, iv, plain)), Some(box.keyVersion));
            var later := Run(Lifecycle.Create(rows, id, userId, createdAt, expiresAt, data), ops);
            Resolve(cipher, Some(box), usable, LookupIn(later, source.kind), now, ChallengeRef(id), source)
            == if Lifecycle.Consumable(later, id, now) then Available(plain) else Unusable(SecretExpired)
  {
    var sealed := Sealed(Seal(cipher, box, iv, plain), box.keyVersion);
    var data := Data(digest, Some(sealed.text), Some(sealed.keyVersion));
    var created := Lifecycle.Create(rows, id, userId, createdAt, expiresAt, data);
    Lifecycle.ApplyKeepsValid(rows, Lifecycle.Creates(id, userId, createdAt, expiresAt, data));
    PutGet(rows, id, Lifecycle.Life(userId, createdAt, expiresAt, None, None, data), id);
    RunKeepsSecret(created, ops, id, sealed, now);
    OpenSeal(cipher, box, iv, plain);
  }

  /** The operation redeems the challenge before it expires, or supersedes its user's challenges. */
  predicate EndsChallenge(op: Op, id: string, userId: string, expiresAt: int) {
    (op.Consumes? && op.id == id && op.now < expiresAt) || (op.Supersedes? && op.userId == userId)
  }

  /** The row is still that user's and still expires then; whether it is open is told. */
  predicate RowIs(rows: ChallengeTable, id: string, userId: string, expiresAt: int, open: bool) {
    Has(rows, id) &&
    var life := Get(rows, id);
    life.userId == userId && life.expiresAt == expiresAt && (open <==> life.consumedAt == None && life.closedAt == None)
  }

  lemma OpenStep(rows: ChallengeTable, op: Op, id: string, userId: string, expiresAt: int, open: bool)
    requires Lifecycle.Valid(rows) && (op.Creates? ==> !Has(rows, op.id)) && RowIs(rows, id, userId, expiresAt, open)
    ensures Lifecycle.Valid(Apply(rows, op))
    ensures RowIs(Apply(rows, op), id, userId, expiresAt, open && !EndsChallenge(op, id, userId, expiresAt))
  {
    var later, i := Apply(rows, op), Find(rows, id);
    if op.Scrubs? {
      ScrubbingOnlyAmends(rows, op.now, op.limit);
      Lifecycle.ApplyKeepsValid(rows, Lifecycle.Amends(Payloads(later)));
      ScrubbedAt(rows, op.now, op.limit, i);
    } else {
      Lifecycle.ApplyKeepsValid(rows, AsLife(rows, op));
      match op {
        case Creates(other, owner, createdAt, until, data) =>
          Lifecycle.CreateAdds(rows, other, owner, createdAt, until, data);
        case Consumes(other, now) => Lifecycle.ConsumeMarks(rows, other, now);
        case Supersedes(owner, now) => Lifecycle.CloseOpenMarks(rows, owner, now);
      }
    }
    FindIs(later, i);
  }

  lemma {:induction false} OpenExactlyUntouched(rows: ChallengeTable, ops: seq<Op>, id: string, userId: string,
                                                expiresAt: int, open: bool, until: int)
    requires Lifecycle.Valid(rows) && RegularRun(rows, ops, until) && RowIs(rows, id, userId, expiresAt, open)
    ensures RowIs(Run(rows, ops), id, userId, expiresAt,
                  open && forall k :: 0 <= k < |ops| ==> !EndsChallenge(ops[k], id, userId, expiresAt))
    decreases |ops|
  {
    if ops == [] {
    } else {
      var still := open && !EndsChallenge(ops[0], id, userId, expiresAt);
      OpenStep(rows, ops[0], id, userId, expiresAt, open);
      OpenExactlyUntouched(Apply(rows, ops[0]), ops[1..], id, userId, expiresAt, still, until);
      assert forall k :: 0 <= k < |ops| ==> ops[k] == if k == 0 then ops[0] else ops[1..][k - 1];
    }
  }

  /**
   * In terms of the operations alone: the secret can be had exactly before it expires, and as long as the
   * challenge has not been redeemed before its expiry nor its user's challenges been superseded.
   */
  lemma AvailableExactlyIfUntouched(cipher: Cipher, box: Box, usable: (string, string, string) -> bool,
                                    iv: seq<byte>, plain: string, rows: ChallengeTable, id: string, userId: string,
                                    createdAt: int, expiresAt: int, digest: string, ops: seq<Op>, now: int,
                                    source: Source)
    requires Correct(cipher) && |iv| == IV_BYTES && Lifecycle.Valid(rows) && !Has(rows, id)
    requires var data := Data(digest, Some(Seal(cipher, box, iv, plain)), Some(box.keyVersion));
             RegularRun(Lifecycle.Create(rows, id, userId, createdAt, expiresAt, data), ops, now)
    ensures var data := Data(digest, Some(Seal(cipher, box, iv, plain)), Some(box.keyVersion));
            var later := Run(Lifecycle.Create(rows, id, userId, createdAt, expiresAt, data), ops);
            Resolve(cipher, Some(box), usable, LookupIn(later, source.kind), now, ChallengeRef(id), source)
            == if now < expiresAt && forall k :: 0 <= k < |ops| ==> !EndsChallenge(ops[k], id, userId, expiresAt)
               then Available(plain) else Unusable(SecretExpired)
  {
    var data := Data(digest, Some(Seal(cipher, box, iv, plain)), Some(box.keyVersion));
    var created := Lifecycle.Create(rows, id, userId, createdAt, expiresAt, data);
    AvailableExactlyWhileRedeemable(cipher, box, usable, iv, plain, rows, id, userId, createdAt, expiresAt, digest, ops,
        now, source);
    Lifecycle.ApplyKeepsValid(rows, Lifecycle.Creates(id, userId, createdAt, expiresAt, data));
    PutGet(rows, id, Lifecycle.Life(userId, createdAt, expiresAt, None, None, data), id);
    OpenExactlyUntouched(created, ops, id, userId, expiresAt, true, now);
    RedeemableExactly(Run(created, ops), id, now);
  }

  lemma RedeemableExactly(rows: ChallengeTable, id: string, now: int)
    requires Has(rows, id)
    ensures var life := Get(rows, id);
            Lifecycle.Consumable(rows, id, now) <==>
              life.consumedAt == None && life.closedAt == None && now < life.expiresAt
  {}

  /**
   * For any text that a row may hold: a secret is available exactly if the row can still be redeemed
   * and its text is four parts that this box opens to that secret; in every other case the answer
   * is that the secret is unusable.
   */
  lemma AvailableExactlyIfItOpens(cipher: Cipher, box: Box, rows: ChallengeTable, now: int, id: string, source: Source,
                                  secret: string)
    ensures var resolution :=
            ResolveChallenge(cipher, Some(box), LookupIn(rows, source.kind), now, ChallengeRef(id), source);
            resolution == Available(secret) <==>
              Lifecycle.Consumable(rows, id, now) && Get(rows, id).payload.sealedKeyVersion.Some?
              && exists iv, text, tag ::
                   Opens(cipher, box, iv, text, tag, secret)
                   && Get(rows, id).payload.sealedSecret == Some(Join([FORMAT_VERSION, iv, text, tag], '.'))
  {
    if Lifecycle.Consumable(rows, id, now) && Get(rows, id).payload.sealedSecret.Some? {
      OpensExactly(cipher, box, Get(rows, id).payload.sealedSecret.value, secret);
    }
  }
}
