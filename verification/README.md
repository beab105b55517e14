# Verified model of the identity, logging and secret-handling core

This project models six parts of the LAGDA backend and proves properties of them:

- **The log redactor** (`redaction.dfy`, `scrub.dfy`, `scrub_exact.dfy`, `scrub_urls.dfy`, `scrub_final.dfy`,
  `scrub_protected.dfy`, `scrub_written.dfy`, `scrub_tables.dfy`, `replace.dfy`, `logged_texts.dfy`): the bounded walk
  over an arbitrary, possibly cyclic object graph, with its mutable set of visited objects, the two text replacements
  that remove credentials from URLs and query strings, and what of a text reaches the log.
- **The identity store** (`identity_store.dfy`, one module per table, `registration_lookups.dfy` for what its lookups
  see, `overlap.dfy` for commits that overlap, and `second_factor.dfy` and `second_factor_outcomes.dfy` for submissions
  of a second factor): users and their two indexes, the commit with its
  snapshot, verification and reset challenges, sessions, one-time-password factors, recovery codes and pending
  authentications. `InMemoryIdentity` is the class with its fields updated in place; every method is proved against a
  function on the table it writes, and ghost histories say which run of operations has led to each table. What holds
  over whole runs is proved about those functions.
- **Sealed secrets** (`secret_box.dfy`, `secret_resolver.dfy`): the `v1.<iv>.<ciphertext>.<tag>` format around an
  authenticated cipher that is left abstract, and the resolver that delivers a secret while its challenge can be redeemed.
- **The verification-id sampler** (`verification_id.dfy`): rejection sampling over chunks of random bytes.
- **Small codecs** (`field_path.dfy`, `field_path_sharing.dfy`, `avatar_image.dfy`, `basic_auth.dfy`): JSON Pointer to
  field path (RFC 6901), PNG header acceptance (RFC 2083), and Basic credentials (RFC 7617).
- **The byte and text layer below them** (`text.dfy`, `base64.dfy`, `utf8.dfy`, `utf16.dfy`, `rows.dfy`): split and join,
  decimal printing, base64 in both alphabets with a lenient decoder (RFC 4648), UTF-8 (RFC 3629), JavaScript strings as
  UTF-16 code units, insertion-ordered maps.

Random bytes, clocks, drawn ids and digests are parameters. Rows that the program updates in place are values in a
sequence here. The one lookup that hands out a row of a table itself, `sessionRepository.findByTokenHash`
(`infra/identity-memory.ts:283-284`), does no harm, because session rows are replaced and never changed; every other
lookup hands out a copy.

## Where the code and its promises differ

- A pending authentication at its attempt ceiling can still be consumed: `mfa.ts` promises that `consumeIfUsable`
  refuses such a row (`packages/application/src/auth/mfa.ts:171-175`, `413-414`), the in-memory store does not look at
  the counter. Submissions served one after the other stay within the ceiling
  (`SecondFactorOutcomes.SubmissionsInTurnStayBounded`), because each checks it when it reads. Two
  overlapping ones get past it, by a late success (`PendingAuth.OverlapPassesTheCeiling`) or by one failure too many
  (`PendingAuth.OverlapFailsTooOften`). Over any interleaving of store operations the exact condition is
  `PendingAuth.BoundedExactlyIfBelow`, and for one ceremony, by counting its operations,
  `PendingAuth.BoundedExactlyByCounting` and `PendingAuth.LateSuccessExactlyByCounting`.
- "Both or neither" (`packages/application/src/auth/register-user.ts:103-111`) does not hold of the challenge rows: a
  failed commit leaves them. `Registration.OrphansExactlyAfterLateThrow` gives the exact condition over all runs.
- A commit that fails puts its own snapshot back, whatever has happened in between. If no other commit fails in
  between, `Overlap.FailedCommitLosesExactly` says which users are lost, those of completed registrations included, and
  exactly when the two password lookups stop agreeing; `Registration.OverlappingCommitLosesUser` and
  `Overlap.LostUserKeepsPassword` are runs in which it happens. If another one does fail, users of a failed registration
  can come back: `Overlap.FailedUserComesBack` is such a run, and `Overlap.SecondFailureBringsBack` says for every two
  commits of which the first to begin is the first to fail who comes back, who is lost, when the lookups agree, and when
  the list of challenges is left with a hole (`Overlap.TwoFailuresLeaveHole`). After any run at all the last failure
  decides which users there are (`Overlap.LastFailureDecides`). With any number of commits under way the two indexes
  always stay together (`Overlap.TwoViewsWhateverOverlaps`), and `Overlap.IntactExactlyIfHarmless`, with
  `Overlap.HarmlessInEvents`, is the exact condition for the lookups and for the list of challenges.
- Superseding and then creating leaves at most one open challenge per user
  (`packages/application/src/auth/reset-password.ts:274-278`) exactly if nothing creates in between:
  `Lifecycle.OneOpenExactlyIfGuarded`, `Lifecycle.InterleavedRequestsLeaveTwoOpen`.
- "One active per user" (`infra/identity-memory.ts:59`) is not enforced for factors either:
  `Factors.OneActiveExactlyIfGuarded` gives the exact condition, `Factors.InterleavedEnrolmentsLeaveTwoActive` a run in
  which two overlapping enrolments break it.
- A query credential is hidden in every text exactly if its value has no `@`, `:` or `/`:
  `ScrubExact.HidesExactlyPlain`. Any other value can take part in what the first replacement reads as a URL. The other
  way round, removing a value can uncover a URL password that the first replacement did not see:
  `ScrubUrlPasswords.UncoveredPassword`. `ScrubUrlPasswords.UncoversExactly` says of every query value whether its removal
  can do so: exactly if it ends a user name that goes on into it without making a credential of it, and every URL that
  starts in it ends in it. A value without `://` can exactly if it ends such a user name (`ScrubFinal.WithoutScheme`), and
  one without an `@` and a slash never can (`ScrubFinal.WithoutAtAndSlash`). Of the text that is scrubbed,
  `ScrubFinal.PlainTextIsSafe` says that all URL passwords are marked in the end if no query value has an `@`, `:` or `/`.
  Among such values, `ScrubWritten.SafeExactly` says of every value whether writing it keeps this true in every text:
  exactly if it has no `@`, `:` and `/` itself, or ends in a URL that has reached its user and that no password runs over.
  `/a://b` is such a value (`ScrubWritten.ProtectedSample`); without `://` there is none
  (`ScrubWritten.SafeWithoutScheme`).
- Secrets inside an error's message do not get through (`packages/api/src/logging/redaction.ts:8`); inside its name
  they do (`LoggedTexts.ErrorNamesAreNotScrubbed`).
- A plaintext is a JavaScript string, and comes back from its sealed form exactly if no surrogate in it is unpaired:
  `SecretBox.OpenSealExactly`. Opening succeeds all the same.
- A field path does not determine its names: `a..b` is the path of two different lists
  (`FieldPathSharing.CollidingPair`). Two lists share a path exactly if one becomes the other by joining and splitting
  names at dots and bracketed indexes (`FieldPathSharing.PathsSharedExactlyIfConnected`), and a list is alone with its
  path exactly if it is a single name with no place to split (`FieldPathSharing.AloneExactlyIfAtomic`). Names free of
  `.` and `[` can be read back (`FieldPath.FieldPathInvertible`). An empty property name is lost
  (`FieldPath.EmptyNameIsLost`).

## Model

| member | source | states |
|---|---|---|
| Redaction.RedactLog | packages/api/src/logging/redaction.ts:158-160 | the logger's entry point, on the mutable set of visited objects, returns what the pure walk returns, for every heap, cyclic or not; what that is at every position is `EveryPosition` |
| Redaction.RedactValue | packages/api/src/logging/redaction.ts:90-151 | the walk with the mutable set of visited objects equals a function of the path above, and leaves the set as it found it; each kind of value is written as `EveryPosition` says |
| Redaction.RedactNode | packages/api/src/logging/redaction.ts:116-145 | arrays, errors and records are written as specified, and the set of visited objects comes back unchanged |
| Redaction.RedactItems | packages/api/src/logging/redaction.ts:117-118 | one output per item, each written below the current path |
| Redaction.RedactEntries | packages/api/src/logging/redaction.ts:133-145 | the key loop: secret keys get the marker, at most 100 keys, then the key-limit entry |
| Redaction.SecretsDoNotMatter | packages/api/src/logging/redaction.ts:56-100 | noninterference: two heaps, cycles and sharing allowed, alike up to object identity, to anything under secret keys, and to any number of URL passwords and plain query values inside texts, messages and stacks, give the same output |
| Redaction.EverySecretKeyIsMarked | packages/api/src/logging/redaction.ts:133-145 | in any output, at any depth, a secret key has exactly the marker for a value |
| Redaction.CircularExactlyOnItsPath | packages/api/src/logging/redaction.ts:107-113 | along any path of positions through heap and output: the position is there exactly if the path is within the depth limit and meets no object twice, and it holds `[circular]` exactly if its object is already on the path, above the limit |
| Redaction.EveryPosition | packages/api/src/logging/redaction.ts:90-151 | what stands at every position of a log entry, by the value there: a text is scrubbed and beyond 2048 characters cut and marked with its length, an error has its name and its scrubbed message and stack, a list shows 50 items and tells how many are missing, a record shows 100 keys and the key limit, secret keys have the marker, depth 8 and cycles are marked, and everything else passes |
| LoggedTexts.NoQueryCredentialIsLogged | packages/api/src/logging/redaction.ts:74-100 | no text at any position of any log entry holds a listed query credential without the marker, unless the text was cut after 2048 characters or is the name of an error that holds one itself |
| LoggedTexts.InnocentTextPasses | packages/api/src/logging/redaction.ts:93-100 | a text of at most 2048 characters that holds no credential, at whatever position it stands, is logged as it is |
| LoggedTexts.LongTextIsCut | packages/api/src/logging/redaction.ts:93-100 | a longer one is logged with the first 2048 characters of its scrubbed form and that form's length |
| LoggedTexts.MarkedIsUnchanged | packages/api/src/logging/redaction.ts:74-83 | the scrubber leaves every text alone in which all URL and query credentials are marked |
| LoggedTexts.UrlsUnchangedExactly | packages/api/src/logging/redaction.ts:75-77 | the first replacement leaves a text alone if and only if all its URL credentials are marked |
| LoggedTexts.ErrorNamesAreNotScrubbed | packages/api/src/logging/redaction.ts:124-132 | an error's name is logged with a query credential that is in it |
| Redaction.SharingIsExpanded | packages/api/src/logging/redaction.ts:146-150 | without cycles the visited set never changes the result: a shared object is written out at each place |
| Redaction.OutputIsBounded | packages/api/src/logging/redaction.ts:51-54 | the walk ends on every heap with at most N(0) nodes, where N(8) = 1 and N(d) = 2 + 100 N(d + 1) |
| Redaction.BoundIsReached | packages/api/src/logging/redaction.ts:51-54 | nine objects reach that bound |
| Scrub.SeparatorsAndCaseDoNotCount | packages/api/src/logging/redaction.ts:56-64 | keys that differ in separators or in the case of a letter are secret together |
| Scrub.SuffixCountsUnderAnyPrefix | packages/api/src/logging/redaction.ts:49-64 | a secret suffix makes a key secret under any prefix |
| ScrubTables.SecretExactly | packages/api/src/logging/redaction.ts:56-64 | a key is secret if and only if it reads as a listed key or as anything followed by a listed suffix |
| ScrubTables.UnitsCountFor | packages/api/src/logging/redaction.ts:52-54 | what each character counts for in a key, by the alphabet |
| ScrubTables.ClassesAre | packages/api/src/logging/redaction.ts:75-82 | the members of the two expressions' character classes |
| ScrubTables.FirstUrlMarked | packages/api/src/logging/redaction.ts:75-77 | the first URL credential of a text gets the marker for its password, what is before it is copied, and the replacement goes on behind the password |
| ScrubTables.FirstQueryMarked | packages/api/src/logging/redaction.ts:79-82 | the same of the first query credential |
| Scrub.UrlMatchComplete | packages/api/src/logging/redaction.ts:77 | the matcher finds every text of the expression's form at a position, and reads it in one way only |
| Scrub.QueryMatchComplete | packages/api/src/logging/redaction.ts:79-82 | the same for the query expression |
| Scrub.NoQueryCredentialSurvives | packages/api/src/logging/redaction.ts:74-83 | in any scrubbed text, at any position, each listed `?name=` or `&name=` with a value has exactly the marker, up to `&`, white space or the end |
| Scrub.NoUrlPasswordSurvives | packages/api/src/logging/redaction.ts:75-77 | after the first replacement each URL credential, at any position, has the marker for a password |
| ScrubUrlPasswords.UncoveredPassword | packages/api/src/logging/redaction.ts:74-83 | a text whose scrubbed form is a URL credential with an unmarked password |
| ScrubUrlPasswords.UncoversExactly | packages/api/src/logging/redaction.ts:74-83 | for every query value, colons included, and for the texts that the first replacement can leave: putting the marker in its place uncovers a URL password in some text if and only if the value ends a user name that goes on into it, without making a credential of it, and every URL that starts in it ends in it |
| ScrubFinal.WithoutScheme | packages/api/src/logging/redaction.ts:74-83 | a value without `://` can do that if and only if it ends a user name, and one without a colon if and only if it has an `@` or `/` |
| ScrubFinal.WithoutAtAndSlash | packages/api/src/logging/redaction.ts:74-83 | a value without `@` and `/` never can, whatever colons it has |
| ScrubFinal.NoFinalUrlPasswordSurvives | packages/api/src/logging/redaction.ts:74-83 | in the final text each URL credential, at any position, has the marker for a password, if no query value left by the first replacement uncovers one |
| ScrubFinal.PlainTextIsSafe | packages/api/src/logging/redaction.ts:74-83 | the same if no query value of the text that is scrubbed has an `@`, `:` or `/` |
| ScrubWritten.SafeExactly | packages/api/src/logging/redaction.ts:74-83 | for every query value of the text that is scrubbed: it leaves every URL password marked in every text with otherwise plain query values, if and only if it has no `@`, `:` and `/`, or some suffix of it is a scheme, `://` and a user, no suffix of it is a URL up to its password, and its first odd character is no colon without an `@` behind it |
| ScrubWritten.SafeWithoutScheme | packages/api/src/logging/redaction.ts:74-83 | without `://` that is exactly if it has no `@`, `:` and `/` |
| ScrubWritten.ProtectedSample | packages/api/src/logging/redaction.ts:74-83 | a value with a slash and a colon that is safe |
| Scrub.EachReplacementIsIdempotent | packages/api/src/logging/redaction.ts:75-82 | either replacement alone changes nothing the second time |
| Scrub.PasswordNeverShows | packages/api/src/logging/redaction.ts:74-83 | through both replacements the result does not depend on a URL password, whatever stands around it |
| Scrub.PlainValueNeverShows | packages/api/src/logging/redaction.ts:74-83 | the same for a query value without `@`, `:` and `/` |
| ScrubExact.HidesExactlyPlain | packages/api/src/logging/redaction.ts:74-83 | a query value is hidden in every text if and only if it has no `@`, `:` or `/` |
| Replace.ReplaceClean | packages/api/src/logging/redaction.ts:75-82 | leftmost non-overlapping replacement leaves, at every position, only matches that hold the marker |
| Replace.ReplaceHidesValue | packages/api/src/logging/redaction.ts:75-82 | the result of one replacement does not depend on a matched value |
| VerificationId.RandomVerificationSuffix | packages/security/src/completion-identifiers.ts:86-97 | the nested loops give what one pass over all bytes gives, wherever chunks end, and the last chunk drawn was needed |
| VerificationId.FewChunksSuffice | packages/security/src/completion-identifiers.ts:86-97 | if every chunk holds an accepted byte, at most `length` chunks are drawn |
| VerificationId.CompleteIsFinal | packages/security/src/completion-identifiers.ts:89-93 | once the suffix is complete, further bytes do not change it |
| VerificationId.AcceptedBytesAreUniform | packages/security/src/completion-identifiers.ts:83-92 | exactly 4^n sequences of n accepted bytes give any one suffix of n letters |
| VerificationId.SamplerIsUniform | packages/security/src/completion-identifiers.ts:83-97 | with rejected bytes included, the number of ways to draw m bytes that yield a suffix depends on its length only |
| Base64.RegroupKeepsBits | packages/security/src/secret-box.ts:93-99 | regrouping bytes into sextets keeps the bit string, for all residues modulo three, and fills up with zero bits |
| Base64.DecodeEncode | packages/security/src/secret-box.ts:109-111 | the lenient decoder undoes base64url and base64, padded or not |
| Base64.EncodedByTheTables | packages/security/src/secret-box.ts:93-101 | base64url and base64 print the bits of the bytes, six at a time and filled up with zeros, by the two tables of RFC 4648, and base64 alone is padded, to a multiple of four letters |
| Base64.DecoderIsLenient | packages/security/src/secret-box.ts:107-111 | the decoder takes `+` for `-` and `/` for `_`, skips characters of neither alphabet wherever they stand, and reads nothing behind an equals sign |
| Base64.StandardLettersAre | packages/api/src/security/avatar-image.ts:33 | the letters that the transport check allows are those of the standard table |
| Utf8.DecodeEncode | packages/security/src/secret-box.ts:88-91 | decoding undoes encoding for every text of Unicode scalar values |
| Utf8.ReadExactly | packages/security/src/secret-box.ts:119-131 | of any bytes, well-formed or not, the character they begin with is read, or else the longest start of one, or a single byte, as U+FFFD |
| Text.SplitJoin | packages/security/src/secret-box.ts:94-105 | splitting at `.` undoes joining with it, when no piece holds one |
| SecretBox.SealedParts | packages/security/src/secret-box.ts:84-105 | a sealed secret splits into exactly the four parts it was joined from |
| Utf16.UnitsOfCharsExactly | packages/security/src/secret-box.ts:88-91 | a JavaScript string comes back from its characters if and only if no surrogate in it is unpaired, and has its length in any case |
| SecretBox.OpenSeal | packages/security/src/secret-box.ts:84-133 | opening undoes sealing for every text of Unicode scalar values and every 12-byte IV |
| SecretBox.OpenSealExactly | packages/security/src/secret-box.ts:84-133 | opening what was sealed succeeds for every JavaScript string, and gives it back if and only if no surrogate in it is unpaired |
| SecretBox.OpensExactly | packages/security/src/secret-box.ts:104-133 | a text opens to a plaintext if and only if it is four parts of the right lengths that the cipher accepts |
| SecretBox.RefusedExactly | packages/security/src/secret-box.ts:107-133 | a text that does not open is reported as malformed if and only if it is not four parts of the right lengths, and as not opening if and only if it is and the cipher refuses it |
| SecretBox.GeneratedKeyIsAccepted | packages/security/src/secret-box.ts:74-79 | printed key material is accepted exactly if it has 32 bytes, and the box then holds those bytes |
| SecretResolver.KeyDecides | packages/security/src/notification-secret.ts:73-93 | a key that does not decode to 32 bytes makes no resolver; without a key every secret is reported revoked |
| SecretResolver.GeneratedKeyResolves | packages/security/src/notification-secret.ts:73-121 | a generated key makes a resolver that delivers what a box with that key has sealed |
| SecretResolver.SealedIsDeliveredWhileVouchedFor | packages/security/src/notification-secret.ts:73-121 | a secret sealed into a notification is delivered unchanged exactly while its domain vouches for it and its kind is listed |
| SecretResolver.SealedResolvesExactly | packages/security/src/notification-secret.ts:80-121 | for any sealed text: revoked if and only if there is no key, the kind is not listed or the domain does not vouch for it; otherwise what it opens to, or expired if it does not open |
| SecretResolver.ChallengeResolvesExactly | packages/security/src/notification-secret.ts:177-214 | for any challenge and lookup: revoked if and only if there is no key or no lookup of the kind; otherwise what the found text opens to, or expired if nothing is found or opens |
| SecretResolver.AvailableExactlyWhileRedeemable | packages/security/src/notification-secret.ts:157-214 | over any run of the challenge table, available at t if and only if redeeming at t would succeed; then it is the secret that was sealed, else reported expired |
| SecretResolver.AvailableExactlyIfUntouched | packages/security/src/notification-secret.ts:157-214 | the same in terms of the run's operations alone: available at t if and only if the challenge has not expired at t and no operation has redeemed it before its expiry or superseded its user's challenges |
| SecretResolver.AvailableExactlyIfItOpens | packages/security/src/notification-secret.ts:193-211 | for any stored text: available exactly if the row can be redeemed and the text opens to that secret, and unusable otherwise |
| AvatarImage.AcceptedIsCanonical | packages/api/src/security/avatar-image.ts:28-53 | an accepted text is the one encoding of the returned bytes with up to two equals signs, and these are a PNG of the returned dimensions, 1 to 512, in 24 to 409600 bytes |
| AvatarImage.CanonicalIsAccepted | packages/api/src/security/avatar-image.ts:28-53 | every such image is accepted in that encoding, with its dimensions; the transport bound lets it pass |
| AvatarImage.AcceptedExactly | packages/api/src/security/avatar-image.ts:28-53 | a text is accepted with bytes, width and height if and only if it encodes these bytes and they have signature, tag and size right and hold both dimensions, most significant byte first |
| AvatarImage.HeaderExactly | packages/api/src/security/avatar-image.ts:40-51 | the header checks alone find exactly these images and dimensions |
| AvatarImage.SameBytesSameText | packages/api/src/security/avatar-image.ts:35-39 | two accepted texts have the same bytes if and only if they differ in trailing equals signs only |
| AvatarImage.DecodeIsBounded | packages/api/src/security/avatar-image.ts:29-32 | the transport bound limits the decoded size to the maximum plus 96 bytes, before any size check |
| AvatarImage.TagHighBitsAreIgnored | packages/api/src/security/avatar-image.ts:43-45 | the tag comparison ignores the high bit of each byte |
| BasicAuth.PasswordRoundTrip | packages/api/src/notifications/provider-webhook-routes.ts:82-94 | for every user name without a colon and every password, in any case of the scheme, exactly the password comes back |
| BasicAuth.PresentedExactly | packages/api/src/notifications/provider-webhook-routes.ts:82-94 | a secret comes out if and only if scheme, second word and first colon are as required |
| FieldPath.ToFieldPath | packages/api/src/errors/validation.ts:26-41 | the loop prints the path of the non-empty, unescaped segments |
| FieldPath.TwoReplacementsAreOnePass | packages/api/src/errors/validation.ts:33 | `~1` first and `~0` second read every text as one pass over both escapes does |
| FieldPath.FieldPathInvertible | packages/api/src/errors/validation.ts:26-41 | a parser recovers non-empty names free of `.` and `[` from the field path of their pointer |
| FieldPathSharing.PathsSharedExactlyIfConnected | packages/api/src/errors/validation.ts:26-41 | any two pointers have the same field path if and only if, without empty names, one list of names becomes the other by joining and splitting names at a dot or a bracketed index |
| FieldPathSharing.AloneExactlyIfAtomic | packages/api/src/errors/validation.ts:30-39 | a list of non-empty names is the only one with its path if and only if it is empty, or a single name that is no index, bracketed or not, and splits nowhere |
| FieldPathSharing.DotsCollide | packages/api/src/errors/validation.ts:37 | a dot between two names that are no indexes, or at the edge of one, prints like a separator |
| FieldPathSharing.CollidingPair | packages/api/src/errors/validation.ts:37 | two different lists of two names with one path |
| FieldPath.EmptyNameIsLost | packages/api/src/errors/validation.ts:28 | an empty name disappears from the path |
| Rows.PutGet | infra/identity-memory.ts:135-143 | setting an entry changes what is found under its id and under no other |
| Lifecycle.CloseOpenRows | infra/identity-memory.ts:179-188 | the loop gives the table in which one user's open rows are closed, and their number; which rows change, and how, is `CloseOpenMarks` and `CountOpenIs` |
| Lifecycle.CloseOpenMarks | infra/identity-memory.ts:179-188 | closing writes its moment into exactly the rows of the named user that are neither consumed nor closed; every other row, of that user and of others, stays as it is |
| Lifecycle.ClosingEndsOwnOnly | infra/identity-memory.ts:170-188 | at any time, what can no longer be consumed after closing are exactly the named user's rows |
| Lifecycle.CountOpenIs | infra/identity-memory.ts:179-188 | the number returned is that of the user's open rows |
| Lifecycle.ConsumableExactly | infra/identity-memory.ts:170-178 | a row can be consumed if and only if it is neither consumed nor closed nor expired |
| Lifecycle.ConsumeMarks | infra/identity-memory.ts:170-178 | consuming writes its moment into such a row and nothing else |
| Lifecycle.CreateAdds | infra/identity-memory.ts:189-198 | a new id adds an open row at the end |
| Lifecycle.RunAdvances | infra/identity-memory.ts:157-198 | over any run with fresh ids `consumedAt` and `supersededAt` are written once and never both |
| Lifecycle.ConsumedAtMostOnce | infra/identity-memory.ts:170-178 | over any interleaving a row is consumed successfully exactly as often as it ends up consumed, at most once |
| Lifecycle.NeverAfterClosing | infra/identity-memory.ts:352-368 | a superseded row is never consumed |
| Lifecycle.ConsumptionSticks | infra/identity-memory.ts:352-359 | the moment of a consumption survives any later run |
| Lifecycle.OneOpenExactlyIfGuarded | infra/identity-memory.ts:179-198 | no user ever has two open rows if and only if every creation finds none open |
| Lifecycle.CloseThenCreateKeepsOneOpen | packages/application/src/auth/reset-password.ts:274-283 | superseding directly before each creation keeps at most one open row per user |
| Lifecycle.InterleavedRequestsLeaveTwoOpen | infra/identity-memory.ts:360-376 | two interleaved requests leave two open rows |
| Challenges.ScrubExpiredSecrets | infra/identity-memory.ts:210-219 | the loop removes the secrets of the first `limit` expired rows and returns min(max(limit, 0), expired sealed rows) |
| Challenges.ScrubbingCounts | infra/identity-memory.ts:388-397 | each call leaves that many fewer |
| Challenges.ScrubbingDrains | infra/identity-memory.ts:388-397 | repeated calls drain to none, `limit` at a time |
| Challenges.ScrubbingIsInvisible | infra/identity-memory.ts:199-219 | no `findSealedIfActive` at the same or a later time is changed |
| Challenges.SealedExactly | infra/identity-memory.ts:199-209 | the sealed secret comes with its key version if and only if the row has both and is neither consumed nor closed nor expired |
| Challenges.ScrubbedExactly | infra/identity-memory.ts:210-219 | a row loses its secret and key version if and only if it is expired and sealed and fewer than the limit come before it; nothing else changes |
| Sessions.RevokeAllRows | infra/identity-memory.ts:326-334 | the loop of the bulk revocations returns exactly the drop in the user's active list |
| Sessions.RevokeAllLeaves | infra/identity-memory.ts:411-421 | afterwards the user's list is the kept session at most, and other users' lists are unchanged |
| Sessions.SessionsAreConserved | infra/identity-memory.ts:282-335 | over any run with fresh ids active plus revoked is created, and the first revocation's time and reason never change |
| Sessions.OnlyOwnSessions | infra/identity-memory.ts:316-325 | revoking by id changes something exactly if the user owns the active session, and touches no other |
| Sessions.RevokeMarks | infra/identity-memory.ts:294-300 | revoking an active session writes exactly the moment and the reason; one that was revoked before keeps its own, and all other rows stay |
| Sessions.RevokeLeaves | infra/identity-memory.ts:294-314 | afterwards no user's active list holds the id, and each list is what it was without that line |
| Sessions.RevokeOwnedMarks | infra/identity-memory.ts:316-325 | the same of the user's own session alone |
| Sessions.RevokeAllMarks | infra/identity-memory.ts:326-334 | the same of all the user's active sessions but the kept one |
| Sessions.TouchMarks | infra/identity-memory.ts:289-293 | a touch changes the time last seen of one row and nothing else |
| Sessions.ListOfOne | infra/identity-memory.ts:304-314 | a session is listed for its user alone and while it is not revoked, with its own times |
| Factors.AcceptedStepsIncrease | infra/identity-memory.ts:450-458 | over any run the accepted time steps of a factor strictly increase and the watermark is the last of them |
| Factors.AcceptedExactlyIfNewer | infra/identity-memory.ts:445-458 | a step is accepted if and only if it is newer than every step accepted so far |
| Factors.AcceptancesFitTheTime | infra/identity-memory.ts:450-458 | there are at most last minus first plus one acceptances |
| Factors.VerifiedAtMostOnce | infra/identity-memory.ts:439-444 | a factor is marked verified at most once, and not once it is verified or disabled |
| Factors.VerifiedExactly | infra/identity-memory.ts:439-444 | over any run a factor is marked verified exactly as often as it goes from unverified to verified |
| Factors.MarkVerifiedMarks | infra/identity-memory.ts:439-444 | exactly a factor that is neither verified nor disabled gets the moment, and nothing else changes |
| Factors.AdvanceMarks | infra/identity-memory.ts:450-458 | exactly a step that is newer than the recorded one, or the first, is recorded, and nothing else changes |
| Factors.DisableMarks | infra/identity-memory.ts:459-464 | exactly a factor that is not disabled gets the moment, and nothing else changes |
| Factors.EnrolmentKeepsOneActive | packages/application/src/auth/mfa.ts:462-481 | an enrolment served as a whole leaves its user with exactly one active factor |
| Factors.EnrolmentChanges | packages/application/src/auth/mfa.ts:462-481 | a verified factor stays; otherwise a new one is added, and the unverified one that was there is disabled |
| Factors.InterleavedEnrolmentsLeaveTwoActive | packages/application/src/auth/mfa.ts:462-481 | two enrolments that both look before either creates leave two active factors |
| Factors.OneActiveExactlyIfGuarded | infra/identity-memory.ts:422-464 | no user ever has two active factors if and only if every creation finds none active |
| RecoveryCodes.CodesAreConserved | infra/identity-memory.ts:467-489 | over any run unused codes plus those used since the last replacement are the set issued, per digest and in all |
| RecoveryCodes.AcceptedExactlyWhileUnspent | infra/identity-memory.ts:475-481 | a digest is accepted if and only if it was used less often than issued to this user |
| RecoveryCodes.ReplaceAllSets | infra/identity-memory.ts:469-474 | the user's set becomes the new codes, all unused; other users' sets stay |
| RecoveryCodes.UsableExactly | infra/identity-memory.ts:475-481 | a digest is accepted if and only if one of the user's codes has it and is unused |
| RecoveryCodes.ConsumeMarks | infra/identity-memory.ts:475-481 | exactly the first such code gets the moment; nothing else changes |
| RecoveryCodes.CountAdds | infra/identity-memory.ts:486-489 | the count of unused codes adds up over the set, a code counting while it has no moment of use |
| PendingAuth.ConsumedAtMostOnce | infra/identity-memory.ts:515-530 | over any interleaving a ceremony is consumed at most once and never after revocation |
| PendingAuth.EveryFailureCounts | infra/identity-memory.ts:506-514 | n wrong codes cost n attempts, however they interleave |
| PendingAuth.FailureMarks | infra/identity-memory.ts:506-514 | a failure adds one to one ceremony's attempts, whatever became of it, and reports the new number and whether it reaches the ceiling; an unknown ceremony is reported exhausted |
| PendingAuth.SubmissionMarks | packages/application/src/auth/mfa.ts:303-419 | a submission writes nothing if its ceremony is over, expired or out of attempts; otherwise a right code consumes it and a wrong one costs an attempt |
| PendingAuth.AttemptsStayBounded | packages/application/src/auth/mfa.ts:303-419 | when submissions are served one after the other, each a reading, a decision and one write, no ceremony exceeds its ceiling or succeeds at it; for the use case with its own checks and all three tables, `SecondFactorOutcomes.SubmissionsInTurnStayBounded` |
| PendingAuth.BoundedExactlyIfBelow | infra/identity-memory.ts:506-522 | over any interleaving of store operations no ceremony gets past its ceiling, throughout, if and only if each consumption and each failure meets a row still below it, and a failure that meets a consumed row leaves it below |
| PendingAuth.BoundedExactlyByCounting | infra/identity-memory.ts:506-522 | one ceremony stays within its bound throughout if and only if its failures in the run do not exceed the ceiling, and do not reach it if it is consumed |
| PendingAuth.LateSuccessExactlyByCounting | infra/identity-memory.ts:515-522 | a ceremony succeeds after its attempts are exhausted if and only if it succeeds and as many attempts as allowed have failed before |
| PendingAuth.OverlapFailsTooOften | packages/application/src/auth/mfa.ts:406-419 | two overlapping wrong codes, read when one attempt is left of any ceiling, fail once more than allowed |
| PendingAuth.OverlapPassesTheCeiling | packages/application/src/auth/mfa.ts:386-419 | a right code that is read with a wrong one, when one attempt is left of any ceiling, authenticates after the attempts are exhausted |
| SecondFactor.TablesFollow | packages/application/src/auth/mfa.ts:303-404 | what any interleaving of submissions and other requests writes is a run of each of the three tables |
| SecondFactor.ClaimsAreConserved | packages/application/src/auth/mfa.ts:303-404 | over any interleaving, for each time step of a factor, each recovery code, and all together: every claim the store grants authenticates one submission, comes too late for its ceremony, or waits to complete |
| SecondFactor.AuthenticatedAtMostClaimed | packages/application/src/auth/mfa.ts:303-404 | over any interleaving the submissions that authenticate are at most the time steps accepted and the recovery codes used |
| SecondFactor.StepAuthenticatesOnce | packages/application/src/auth/mfa.ts:303-404 | over any interleaving a time step of a factor authenticates at most one submission, and only if it is newer than the watermark at the start |
| SecondFactor.CodeAuthenticatesAtMostIssued | packages/application/src/auth/mfa.ts:303-404 | over any interleaving a recovery code authenticates at most as often as it was there unused or was given to the user |
| SecondFactor.CeremonyAuthenticatesOnce | packages/application/src/auth/mfa.ts:303-404 | over any interleaving a ceremony authenticates at most one submission |
| SecondFactorOutcomes.AuthenticatedHasPassed | packages/application/src/auth/mfa.ts:303-404 | over any interleaving: a submission that has authenticated has read its ceremony open, unexpired and with an attempt left, then found its code good for a verified factor of that user, then won an unused step or code, then found the ceremony open and unexpired, in this order |
| SecondFactorOutcomes.ExhaustedIsRejected | packages/application/src/auth/mfa.ts:312-314 | a submission that reads its ceremony with no attempt left is rejected for that, writes nothing, and never authenticates, whatever happens later |
| SecondFactorOutcomes.AuthenticatesExactly | packages/application/src/auth/mfa.ts:303-404 | a submission served as a whole authenticates if and only if the first ceremony with its credential is open, unexpired and below its ceiling, and its user's first active factor is verified and makes of the code a newer step, or an unused recovery code |
| SecondFactorOutcomes.EndsUnknown | packages/application/src/auth/mfa.ts:294-308 | without a ceremony for the credential it ends as not found and writes nothing |
| SecondFactorOutcomes.EndsAtReading | packages/application/src/auth/mfa.ts:303-314 | a ceremony that is over, expired or exhausted ends it for that reason, in this order, and nothing is written |
| SecondFactorOutcomes.EndsWithoutFactor | packages/application/src/auth/mfa.ts:316-359 | without a verified factor, or an account name to check the code for, it ends as such and nothing is written |
| SecondFactorOutcomes.EndsFailed | packages/application/src/auth/mfa.ts:336-368 | a wrong code, a used recovery code or a replayed step costs exactly one attempt of this ceremony, and is reported as such or as the last attempt |
| SecondFactorOutcomes.EndsAuthenticated | packages/application/src/auth/mfa.ts:329-404 | a good code writes its claim, the factor's step or the first unused code, and the moment of the ceremony, and nothing else |
| SecondFactorOutcomes.ServedAsDecided | packages/application/src/auth/mfa.ts:303-419 | of the ceremonies, a submission served as a whole leaves what the decision on its reading leaves |
| SecondFactorOutcomes.SubmissionsInTurnStayBounded | packages/application/src/auth/mfa.ts:303-419 | over any run in which submissions are served one after the other, with logins, resets and any writes to factors and codes in between, no ceremony exceeds its ceiling or authenticates at it |
| Registration.UserIdInjective | infra/identity-memory.ts:83-86 | no user id is drawn twice |
| Registration.FailedCommitRestores | infra/identity-memory.ts:554-571 | a failed commit restores everything but the challenge rows, exactly |
| Registration.CreateKeepsTwoViews | infra/identity-memory.ts:104-113 | creating keeps the two indexes together if and only if it is rejected or the id is not in use |
| Registration.RegistrationLeaves | packages/application/src/auth/register-user.ts:197-228 | what a registration leaves behind, for success, rejection and each point of throwing |
| RegistrationLookups.RegistrationWrites | packages/application/src/auth/register-user.ts:197-228 | a registration draws one id and writes the user, field by field, into both indexes and its challenge into the list and the rows |
| RegistrationLookups.FailedRegistrationWrites | packages/application/src/auth/register-user.ts:197-228 | one that throws, or whose address is taken, leaves users, list and passwords as they were |
| RegistrationLookups.RegistrationIsSeen | infra/identity-memory.ts:118-130 | afterwards both lookups find the new user with the given password, and everybody else as before |
| RegistrationLookups.PasswordChangeIsSeen | infra/identity-memory.ts:401-408 | a changed password is what both lookups give for its user; others are not affected, and an unknown id changes nothing |
| RegistrationLookups.VerificationIsSeen | infra/identity-memory.ts:235-239 | the first verification of a user is what the lookup by address gives; later ones change nothing |
| RegistrationLookups.RejectionEndsUnlessCaught | infra/identity-memory.ts:563-564 | a taken address ends an operation, unless the operation catches the rejection |
| Registration.RunKeepsSound | infra/identity-memory.ts:83-130 | over any run, registrations throwing part-way included, the indexes are two views of one set of users and ids are drawn once |
| Registration.BothLookupsAgree | infra/identity-memory.ts:118-130 | after any run both password lookups agree, from either index |
| Registration.PasswordIsTheLastOneSet | infra/identity-memory.ts:533-545 | over any run a user stays as registered and its password is the one set last |
| Registration.FirstVerificationStays | infra/identity-memory.ts:231-239 | the first verification's time never changes |
| Registration.OrphansExactlyAfterLateThrow | infra/identity-memory.ts:547-571 | over any run a challenge row without a user exists if and only if a registration threw after creating its challenge |
| Registration.OverlappingCommitLosesUser | infra/identity-memory.ts:554-571 | a run in which a failing commit removes a user whose registration completed in between |
| Overlap.TwoViewsWhateverOverlaps | infra/identity-memory.ts:554-571 | however many commits overlap with each other and with other requests, and whichever fail, the indexes stay two views of one set of users with drawn ids |
| Overlap.FailureWrites | infra/identity-memory.ts:554-571 | a failing commit puts back the users and the length of the list it began with, holes included, and nothing else |
| Overlap.LookupsAgreeExactlyIfOwned | infra/identity-memory.ts:118-130 | with the indexes together, the password lookups agree everywhere if and only if every password has its user |
| Overlap.IntactExactlyIfHarmless | infra/identity-memory.ts:554-571 | over any interleaving the lookups agree and the challenge list has no holes, throughout, if and only if no failing commit meets a password whose user it does not know or a list shorter than its own |
| Overlap.HarmlessInEvents | infra/identity-memory.ts:554-571 | a failure is harmless if and only if every password replaced in the whole run, other failures included, is that of a user who was there when the commit began, and the list has not become shorter since |
| Overlap.FailedCommitLosesExactly | infra/identity-memory.ts:554-571 | if no other commit fails while it is under way, a failing commit loses exactly the users created since it began, its own included, and it is harmless and the lookups still agree if and only if none of them has had its password replaced |
| Overlap.LastFailureDecides | infra/identity-memory.ts:554-571 | after any run, whatever has failed in it, the users are those of the snapshot of the last failing commit and those created since that failure, and the lookups agree if and only if every password replaced in the whole run is one of theirs |
| Overlap.SecondFailureBringsBack | infra/identity-memory.ts:554-571 | one commit begins, then another, then the first fails, then the second, with any other events in between that are no failures: who is lost by each failure and who comes back by the second, exactly; when the lookups agree; and when the list has a hole |
| Overlap.FailedUserComesBack | infra/identity-memory.ts:554-571 | a run in which the user of a failed registration comes back when another commit fails |
| Overlap.LostUserKeepsPassword | infra/identity-memory.ts:533-571 | a run after which a password answers for a user that is gone |
| Overlap.TwoFailuresLeaveHole | infra/identity-memory.ts:561-568 | two overlapping commits that both fail leave a hole in the challenge list |
| IdentityStore.Restored | infra/identity-memory.ts:566-567 | clearing a map and filling it from the snapshot gives the snapshot |
| IdentityStore.InMemoryIdentity.constructor | infra/identity-memory.ts:27-81 | a new store is valid and empty |
| IdentityStore.InMemoryIdentity.NextUserId | infra/identity-memory.ts:83-86 | draws the next id of the sequence |
| IdentityStore.InMemoryIdentity.CreateUser | infra/identity-memory.ts:104-113 | writes both indexes unless the address is taken |
| IdentityStore.InMemoryIdentity.FindAuthByNormalizedEmail | infra/identity-memory.ts:118-129 | the changed hash wins over the registered one |
| IdentityStore.InMemoryIdentity.FindPasswordHash | infra/identity-memory.ts:534-539 | the same, by user id |
| IdentityStore.InMemoryIdentity.ReplacePasswordHash | infra/identity-memory.ts:401-408 | replaces the hash of a known user only |
| IdentityStore.InMemoryIdentity.MarkEmailVerifiedIfUnverified | infra/identity-memory.ts:235-239 | writes the time once |
| IdentityStore.InMemoryIdentity.CreateVerificationChallenge | infra/identity-memory.ts:132-145 | adds to the list and to the rows |
| IdentityStore.InMemoryIdentity.Perform | infra/identity-memory.ts:563-564 | the operation's calls up to the first rejection it does not catch |
| IdentityStore.InMemoryIdentity.Commit | infra/identity-memory.ts:554-571 | the whole new state after success and after failure |
| IdentityStore.InMemoryIdentity.PutBack | infra/identity-memory.ts:565-568 | the indexes and the length of the list are those of the snapshot, and nothing else changes |
| IdentityStore.InMemoryIdentity.Register | packages/application/src/auth/register-user.ts:197-228 | the object's registration is the one of the runs |
| IdentityStore.InMemoryIdentity.CreateChallenge | infra/identity-memory.ts:189-198 | adds an open row and no other change, in one of the two tables |
| IdentityStore.InMemoryIdentity.ConsumeIfActive | infra/identity-memory.ts:170-178 | consumes exactly an active row |
| IdentityStore.InMemoryIdentity.SupersedeActiveForUser | infra/identity-memory.ts:360-368 | one of the two tables becomes the one in which the user's open rows are closed, as `Lifecycle.CloseOpenMarks` says, and their number is returned |
| IdentityStore.InMemoryIdentity.FindSealed | infra/identity-memory.ts:377-387 | the sealed secret of an active row |
| IdentityStore.InMemoryIdentity.ScrubSecrets | infra/identity-memory.ts:388-397 | removes and counts expired secrets in one table |
| IdentityStore.InMemoryIdentity.CreateSession | infra/identity-memory.ts:285-288 | adds an active session |
| IdentityStore.InMemoryIdentity.TouchSession | infra/identity-memory.ts:289-293 | changes the time last seen and nothing else |
| IdentityStore.InMemoryIdentity.RevokeSession | infra/identity-memory.ts:294-300 | an active session is revoked, as `Sessions.RevokeMarks` and `Sessions.RevokeLeaves` say |
| IdentityStore.InMemoryIdentity.RevokeOwnedByUser | infra/identity-memory.ts:316-325 | revokes an active session of this user only |
| IdentityStore.InMemoryIdentity.RevokeAllForUser | infra/identity-memory.ts:326-334 | both bulk revocations, with and without a session to keep |
| IdentityStore.InMemoryIdentity.CreateFactor | infra/identity-memory.ts:430-438 | adds a pending factor |
| IdentityStore.InMemoryIdentity.MarkVerifiedIfPending | infra/identity-memory.ts:439-444 | verifies a pending factor |
| IdentityStore.InMemoryIdentity.AdvanceTimeStepIfNewer | infra/identity-memory.ts:450-458 | accepts and records a newer step only |
| IdentityStore.InMemoryIdentity.DisableFactor | infra/identity-memory.ts:459-464 | disables once |
| IdentityStore.InMemoryIdentity.ReplaceAllCodes | infra/identity-memory.ts:469-474 | replaces the user's set by unused codes |
| IdentityStore.InMemoryIdentity.ConsumeCode | infra/identity-memory.ts:475-481 | uses the first unused code with the digest |
| IdentityStore.InMemoryIdentity.DeleteAllCodes | infra/identity-memory.ts:482-485 | removes the user's set |
| IdentityStore.InMemoryIdentity.BeginPending | infra/identity-memory.ts:492-501 | adds an open ceremony without failures |
| IdentityStore.InMemoryIdentity.RecordFailedAttempt | infra/identity-memory.ts:506-514 | one more failure, and whether that was the last attempt; an unknown id counts as exhausted |
| IdentityStore.InMemoryIdentity.ConsumeIfUsable | infra/identity-memory.ts:515-522 | consumes exactly an active ceremony |
| IdentityStore.InMemoryIdentity.RevokePending | infra/identity-memory.ts:523-530 | the same of the user's open ceremonies |
| IdentityStore.InMemoryIdentity.PasswordLookupsAgree | infra/identity-memory.ts:118-130 | after any calls that create users under drawn and unused ids, both password lookups agree |
| IdentityStore.InMemoryIdentity.SessionsConserved | infra/identity-memory.ts:282-335 | after any calls, with fresh session ids, active plus revoked is created |
| IdentityStore.InMemoryIdentity.RedeemedOnce | infra/identity-memory.ts:157-198 | after any calls, with fresh challenge ids, a row says exactly how often it was redeemed |
| IdentityStore.InMemoryIdentity.NoReplay | infra/identity-memory.ts:445-458 | after any calls, with fresh factor ids, a step is accepted exactly if it is newer than all accepted so far |
| IdentityStore.InMemoryIdentity.CodesLeft | infra/identity-memory.ts:486-489 | the count of unused codes is what was issued less what was used since |

## Left out

- AES-GCM, SHA-256, Argon2 and random generation: the cipher is any pair with 16-byte tags whose decryption undoes its encryption, random bytes and digests are parameters; no claim about cryptographic strength, and the digest that avatar validation returns is not part of this model.
- Reuse of a challenge, session or factor id: runs assume fresh ids, as their statements say.
- IdentityStore.InMemoryIdentity.Commit: on the object a commit is one step; commits that overlap are the events of the module Overlap, where a registration that is not split into its calls is one step.
- ScrubFinal.NoFinalUrlPasswordSurvives: the condition on the values is exact over all texts, value by value; in one text a password that one value uncovers may be removed with a later value.
- `sessionRepository.revokeAllForUser` (infra/identity-memory.ts:301), a stub that returns 0.
- Profiles, preferences, `findCurrentUser`, and the lookups by digest or token hash: maps written and read as they are.
- `toValidationDetails`, `limit` and the wording of messages: a finite table.
- `nextVerificationId` with its prefix and year, and the other id generators.
- Fastify routes, schemas, cookies, PDF handling, mail and storage clients: wiring, or foreign libraries.
- Whole-scrubber and whole-redactor idempotence: not claimed; truncation and the interplay of the two replacements break it.
- Redaction.OutputIsBounded: counts nodes, not characters, because messages and stacks of errors are not truncated.
- Redaction.RedactValue: getters, proxies, inherited keys and integer-like keys (which JavaScript lists first) are not modelled; a reference without an object, which cannot occur, is written as undefined.
- Utf8.DecodeEncode: texts are sequences of Unicode scalar values; what unpaired surrogates change is stated for sealing alone (`SecretBox.OpenSealExactly`), and the truncation of long texts at 2048 counts characters instead of code units.
- Scrub.SeparatorsAndCaseDoNotCount: lower-casing is per character; of the non-ASCII characters only the two that lower-case to an ASCII letter leave something behind.
- Base64.DecodeEncode: Node's decoder is modelled as skipping characters outside both alphabets and stopping at the first equals sign.
- VerificationId.RandomVerificationSuffix: the chunks are given instead of drawn, so termination with probability one is not stated; their lengths are arbitrary instead of twice the suffix length.
- SecretResolver.AvailableExactlyWhileRedeemable: assumes, like `AvailableExactlyIfUntouched`, that expired secrets were removed at times not after the time of asking, as one clock gives.
- PendingAuth.AttemptsStayBounded: of the use case only the ceremony's part is in this statement, and whether a code is correct is a parameter; the use case with its own checks and all three tables is `SecondFactorOutcomes.SubmissionsInTurnStayBounded`, where the arithmetic of one-time passwords, the shapes of codes and the labels of accounts are parameters.
- LoggedTexts.NoQueryCredentialIsLogged: says nothing of URL passwords, because one can be uncovered by the second replacement; which texts that spares is stated in ScrubFinal and ScrubWritten.
- SecondFactor.CeremonyAuthenticatesOnce: the answer's count of recovery codes that are left is not part of this model.
- Timestamps, limits and counters are integers; NaN and fractions are not modelled.
