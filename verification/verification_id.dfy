/** The random suffix of a verification id: rejection sampling over chunks of random bytes. */
module VerificationId {
  import opened Text

  const DIGITS: string := "23456789"
  const UPPER: string := "ABCDEFGH" + "JKMN" + "PQRSTUVWXYZ"
  const LOWER: string := "abcdefghijk" + "mn" + "pqrstuvwxyz"

  /** The digits and letters, without those that look alike. */
  const ALPHABET: string := DIGITS + UPPER + LOWER
  const SIZE := 55
  const LIMIT := 220

  lemma AlphabetSize()
    ensures |ALPHABET| == SIZE && LIMIT == 256 / SIZE * SIZE
  {}

  /** The number of a letter of the alphabet. */
  type letter = i: nat | i < SIZE

  // ---- The sampler as a function of the bytes drawn ----

  /** The numbers of the letters that the accepted bytes stand for, in order. */
  function Numbers(bytes: seq<byte>): seq<letter> {
    if bytes == [] then []
    else if bytes[0] < LIMIT then [bytes[0] % SIZE] + Numbers(bytes[1..])
    else Numbers(bytes[1..])
  }

  function Spell(word: seq<letter>): string {
    AlphabetSize();
    seq(|word|, i requires 0 <= i < |word| => ALPHABET[word[i]])
  }

  function Take<T>(s: seq<T>, n: nat): seq<T> { if |s| <= n then s else s[..n] }

  /** What one pass over the bytes yields. */
  function Suffix(length: nat, bytes: seq<byte>): string { Spell(Take(Numbers(bytes), length)) }

  function Flatten(chunks: seq<seq<byte>>): seq<byte> {
    if chunks == [] then [] else Flatten(chunks[..|chunks| - 1]) + chunks[|chunks| - 1]
  }

  lemma {:induction false} NumbersConcat(a: seq<byte>, b: seq<byte>)
    ensures Numbers(a + b) == Numbers(a) + Numbers(b)
  {
    if a == [] {
      NothingAdded(b);
      NothingAdded(Numbers(b));
    } else {
      NumbersConcat(a[1..], b);
      RestOfConcat(a, b);
      if a[0] < LIMIT {
        Associative([a[0] % SIZE], Numbers(a[1..]), Numbers(b));
      }
    }
  }

  lemma {:induction false} FlattenAppend(chunks: seq<seq<byte>>, k: nat)
    requires k <= |chunks|
    ensures exists rest :: Flatten(chunks) == Flatten(chunks[..k]) + rest
  {
    if k == |chunks| {
      assert chunks[..k] == chunks;
      assert Flatten(chunks) == Flatten(chunks[..k]) + [];
    } else {
      var init := chunks[..|chunks| - 1];
      FlattenAppend(init, k);
      assert init[..k] == chunks[..k];
      var rest :| Flatten(init) == Flatten(chunks[..k]) + rest;
      assert Flatten(chunks) == Flatten(chunks[..k]) + (rest + chunks[|chunks| - 1]);
    }
  }

  /** Bytes drawn after the suffix is complete do not change it. */
  lemma CompleteIsFinal(length: nat, chunks: seq<seq<byte>>, k: nat)
    requires k <= |chunks| && |Suffix(length, Flatten(chunks[..k]))| == length
    ensures Suffix(length, Flatten(chunks)) == Suffix(length, Flatten(chunks[..k]))
  {
    FlattenAppend(chunks, k);
    var rest :| Flatten(chunks) == Flatten(chunks[..k]) + rest;
    NumbersConcat(Flatten(chunks[..k]), rest);
  }

  /**
   * The two nested loops over chunks of random bytes. The program draws chunks until it has enough;
   * here the chunks it would draw are given, and if they run out the letters found so far come back.
   * The result is that of one pass over all bytes, wherever one chunk ends and the next begins, and
   * the last chunk drawn was needed.
   */
  method RandomVerificationSuffix(length: nat, chunks: seq<seq<byte>>) returns (out: string, drawn: nat)
    ensures out == Suffix(length, Flatten(chunks))
    ensures drawn <= |chunks| && out == Suffix(length, Flatten(chunks[..drawn]))
    ensures |out| == length || drawn == |chunks|
    ensures drawn > 0 ==> |Suffix(length, Flatten(chunks[..drawn - 1]))| < length
  {
    AlphabetSize();
    out, drawn := "", 0;
    while |out| < length && drawn < |chunks|
      invariant drawn <= |chunks| && out == Suffix(length, Flatten(chunks[..drawn]))
      invariant drawn > 0 ==> |Suffix(length, Flatten(chunks[..drawn - 1]))| < length
      decreases |chunks| - drawn
    {
      ghost var before := Flatten(chunks[..drawn]);
      assert before + chunks[drawn][..0] == before;
      for i := 0 to |chunks[drawn]|
        invariant |out| < length && out == Spell(Numbers(before + chunks[drawn][..i]))
      {
        var b := chunks[drawn][i];
        SpellOneMore(before, chunks[drawn], i);
        if b >= LIMIT { continue; }
        out := out + [ALPHABET[b % SIZE]];
        if |out| == length {
          RestOfChunk(before, chunks[drawn], i + 1);
          break;
        }
      }
      assert chunks[drawn][..|chunks[drawn]|] == chunks[drawn];
      assert chunks[..drawn + 1][..drawn] == chunks[..drawn];
      drawn := drawn + 1;
    }
    assert chunks[..|chunks|] == chunks;
    if |out| == length {
      CompleteIsFinal(length, chunks, drawn);
    }
  }

  lemma SpellOneMore(before: seq<byte>, chunk: seq<byte>, i: nat)
    requires i < |chunk|
    ensures |ALPHABET| == SIZE
    ensures Spell(Numbers(before + chunk[..i + 1]))
         == Spell(Numbers(before + chunk[..i])) + if chunk[i] < LIMIT then [ALPHABET[chunk[i] % SIZE]] else []
  {
    AlphabetSize();
    OneMore(before, chunk, i);
  }

  lemma OneMore(before: seq<byte>, chunk: seq<byte>, i: nat)
    requires i < |chunk|
    ensures Numbers(before + chunk[..i + 1])
         == Numbers(before + chunk[..i]) + if chunk[i] < LIMIT then [chunk[i] % SIZE] else []
  {
    NumbersConcat(before + chunk[..i], [chunk[i]]);
    OneLonger(chunk, i);
    Associative(before, chunk[..i], [chunk[i]]);
    RestOfCons(chunk[i], []);
  }

  lemma OneLonger<T>(s: seq<T>, i: nat)
    requires i < |s|
    ensures s[..i + 1] == s[..i] + [s[i]]
  {}

  lemma RestOfChunk(before: seq<byte>, chunk: seq<byte>, i: nat)
    requires i <= |chunk|
    ensures exists rest :: Numbers(before + chunk) == Numbers(before + chunk[..i]) + rest
  {
    NumbersConcat(before + chunk[..i], chunk[i..]);
    assert before + chunk == before + chunk[..i] + chunk[i..];
  }

  predicate HoldsAccepted(chunk: seq<byte>) { exists i :: 0 <= i < |chunk| && chunk[i] < LIMIT }

  lemma {:induction false} AcceptedGivesNumber(chunk: seq<byte>)
    requires HoldsAccepted(chunk)
    ensures |Numbers(chunk)| >= 1
  {
    if chunk[0] >= LIMIT {
      var i :| 0 <= i < |chunk| && chunk[i] < LIMIT;
      assert chunk[1..][i - 1] < LIMIT;
      AcceptedGivesNumber(chunk[1..]);
    }
  }

  /** If every chunk holds an accepted byte, no more chunks are drawn than letters are asked for. */
  lemma {:induction false} NumbersPerChunk(chunks: seq<seq<byte>>)
    requires forall i :: 0 <= i < |chunks| ==> HoldsAccepted(chunks[i])
    ensures |Numbers(Flatten(chunks))| >= |chunks|
  {
    if chunks == [] {
    } else {
      var init := chunks[..|chunks| - 1];
      NumbersPerChunk(init);
      NumbersConcat(Flatten(init), chunks[|chunks| - 1]);
      AcceptedGivesNumber(chunks[|chunks| - 1]);
    }
  }

  lemma FewChunksSuffice(length: nat, chunks: seq<seq<byte>>, drawn: nat)
    requires forall i :: 0 <= i < |chunks| ==> HoldsAccepted(chunks[i])
    requires drawn <= |chunks| && (drawn > 0 ==> |Suffix(length, Flatten(chunks[..drawn - 1]))| < length)
    ensures drawn <= length
  {
    if drawn > 0 {
      NumbersPerChunk(chunks[..drawn - 1]);
    }
  }

  // ---- Uniformity ----

  function Pow(b: nat, e: nat): nat { if e == 0 then 1 else b * Pow(b, e - 1) }

  /** All sequences that start with an element of `heads` and go on with an element of `tails`. */
  function Prefixed(heads: set<byte>, tails: set<seq<byte>>): set<seq<byte>> {
    set b, r | b in heads && r in tails :: [b] + r
  }

  lemma PrefixedMember(heads: set<byte>, tails: set<seq<byte>>, s: seq<byte>)
    ensures s in Prefixed(heads, tails) <==> s != [] && s[0] in heads && s[1..] in tails
  {
    if s != [] && s[0] in heads && s[1..] in tails {
      assert s == [s[0]] + s[1..];
    }
    if s in Prefixed(heads, tails) {
      var b, r :| b in heads && r in tails && s == [b] + r;
      assert s[1..] == r;
    }
  }

  lemma {:induction false} OneHead(b: byte, tails: set<seq<byte>>)
    ensures |Prefixed({b}, tails)| == |tails|
  {
    if tails == {} {
      assert Prefixed({b}, tails) == {};
    } else {
      var r :| r in tails;
      OneHead(b, tails - {r});
      var rest := Prefixed({b}, tails - {r});
      forall s ensures s in Prefixed({b}, tails) <==> s in rest || s == [b] + r {
        PrefixedMember({b}, tails - {r}, s);
        PrefixedMember({b}, tails, s);
        assert ([b] + r)[1..] == r && (s != [] ==> s == [s[0]] + s[1..]);
      }
      PrefixedMember({b}, tails - {r}, [b] + r);
      assert ([b] + r)[1..] == r;
      assert Prefixed({b}, tails) == rest + {[b] + r};
    }
  }

  lemma PrefixedSplit(a: set<byte>, b: set<byte>, tails: set<seq<byte>>)
    requires a !! b
    ensures |Prefixed(a + b, tails)| == |Prefixed(a, tails)| + |Prefixed(b, tails)|
  {
    forall s ensures !(s in Prefixed(a, tails) && s in Prefixed(b, tails)) {
      PrefixedMember(a, tails, s);
      PrefixedMember(b, tails, s);
    }
    forall s ensures s in Prefixed(a + b, tails) <==> s in Prefixed(a, tails) || s in Prefixed(b, tails) {
      PrefixedMember(a, tails, s);
      PrefixedMember(b, tails, s);
      PrefixedMember(a + b, tails, s);
    }
    assert Prefixed(a + b, tails) == Prefixed(a, tails) + Prefixed(b, tails);
  }

  lemma Distribute(k: nat, n: nat)
    ensures (k + 1) * n == k * n + n
  {}

  lemma {:induction false} PrefixedSize(heads: set<byte>, tails: set<seq<byte>>)
    ensures |Prefixed(heads, tails)| == |heads| * |tails|
  {
    if heads == {} {
      assert Prefixed(heads, tails) == {};
    } else {
      var b :| b in heads;
      PrefixedSize(heads - {b}, tails);
      OneHead(b, tails);
      PrefixedSplit(heads - {b}, {b}, tails);
      assert heads == (heads - {b}) + {b};
      assert |heads| == |heads - {b}| + 1;
      Distribute(|heads - {b}|, |tails|);
    }
  }

  predicate AtLeast(b: byte, lo: nat) { lo <= b }

  function BytesFrom(lo: nat): set<byte> { set b: byte | 0 <= b < 256 && AtLeast(b, lo) }

  lemma {:induction false} BytesFromSize(lo: nat)
    requires lo <= 256
    ensures |BytesFrom(lo)| == 256 - lo
    decreases 256 - lo
  {
    if lo == 256 {
      assert BytesFrom(lo) == {};
    } else {
      BytesFromSize(lo + 1);
      assert BytesFrom(lo) == {lo} + BytesFrom(lo + 1) by {
        forall b: byte ensures AtLeast(b, lo) <==> b == lo || AtLeast(b, lo + 1) {}
      }
    }
  }

  /** The code of the letter at `i`. */
  function CodeAt(i: nat): int {
    if i < 8 then '2' as int + i
    else if i < 16 then 'A' as int + i - 8
    else if i < 18 then 'J' as int + i - 16
    else if i < 20 then 'M' as int + i - 18
    else if i < 31 then 'P' as int + i - 20
    else if i < 42 then 'a' as int + i - 31
    else if i < 44 then 'm' as int + i - 42
    else 'p' as int + i - 44
  }

  lemma UpperAt(i: nat)
    requires 8 <= i < 31
    ensures |UPPER| == 23 && UPPER[i - 8] as int == CodeAt(i)
  {}

  lemma LowerAt(i: nat)
    requires 31 <= i < SIZE
    ensures |LOWER| == 24 && LOWER[i - 31] as int == CodeAt(i)
  {}

  lemma AlphabetAt(i: nat)
    requires i < SIZE
    ensures |ALPHABET| == SIZE && ALPHABET[i] as int == CodeAt(i)
  {
    AlphabetSize();
    if i < 8 {
      assert ALPHABET[i] == DIGITS[i];
    } else if i < 31 {
      UpperAt(i);
      assert ALPHABET[i] == UPPER[i - 8];
    } else {
      LowerAt(i);
      assert ALPHABET[i] == LOWER[i - 31];
    }
  }

  /** No letter occurs twice: a text spells one sequence of numbers. */
  lemma SpellInjective(a: seq<letter>, b: seq<letter>)
    ensures Spell(a) == Spell(b) <==> a == b
  {
    if Spell(a) == Spell(b) {
      assert |a| == |Spell(a)| == |b|;
      forall i | 0 <= i < |a| ensures a[i] == b[i] {
        AlphabetAt(a[i]);
        AlphabetAt(b[i]);
        assert ALPHABET[a[i]] == Spell(a)[i] == Spell(b)[i] == ALPHABET[b[i]];
      }
    }
  }

  /** The accepted bytes that stand for a letter: one in each of the four runs through the alphabet. */
  function BytesFor(i: letter): (s: set<byte>)
    ensures |s| == 4 && forall b: byte :: b in s <==> b < LIMIT && b % SIZE == i
  {
    {i, i + SIZE, i + 2 * SIZE, i + 3 * SIZE}
  }

  predicate Accepted(bytes: seq<byte>) { forall i :: 0 <= i < |bytes| ==> bytes[i] < LIMIT }

  /** The sequences of accepted bytes that stand for the given letters. */
  function Preimages(word: seq<letter>): set<seq<byte>> {
    if word == [] then {[]} else Prefixed(BytesFor(word[0]), Preimages(word[1..]))
  }

  lemma {:induction false} PreimagesAreExact(word: seq<letter>, bytes: seq<byte>)
    ensures bytes in Preimages(word) <==> |bytes| == |word| && Accepted(bytes) && Numbers(bytes) == word
  {
    if word == [] {
    } else {
      PrefixedMember(BytesFor(word[0]), Preimages(word[1..]), bytes);
      if bytes != [] {
        PreimagesAreExact(word[1..], bytes[1..]);
        assert Accepted(bytes) <==> bytes[0] < LIMIT && Accepted(bytes[1..]);
        HeadAndTail(bytes[0] % SIZE, Numbers(bytes[1..]), word[0], word[1..]);
        assert word == [word[0]] + word[1..];
      }
    }
  }

  lemma HeadAndTail<T>(a: T, s: seq<T>, b: T, t: seq<T>)
    ensures [a] + s == [b] + t <==> a == b && s == t
  {
    assert ([a] + s)[0] == a && ([b] + t)[0] == b;
    assert ([a] + s)[1..] == s && ([b] + t)[1..] == t;
  }

  lemma {:induction false} PreimagesSize(word: seq<letter>)
    ensures |Preimages(word)| == Pow(4, |word|)
  {
    if word == [] {
    } else {
      PreimagesSize(word[1..]);
      PrefixedSize(BytesFor(word[0]), Preimages(word[1..]));
    }
  }

  /**
   * Exact uniformity of accepted bytes: of the sequences of `n` accepted bytes, exactly `4^n` give
   * a suffix of `n` letters, whatever the suffix is.
   */
  lemma AcceptedBytesAreUniform(word: seq<letter>)
    ensures |Preimages(word)| == Pow(4, |word|)
    ensures forall bytes :: bytes in Preimages(word) <==>
              |bytes| == |word| && Accepted(bytes) && Suffix(|word|, bytes) == Spell(word)
  {
    PreimagesSize(word);
    forall bytes
      ensures bytes in Preimages(word) <==>
                |bytes| == |word| && Accepted(bytes) && Suffix(|word|, bytes) == Spell(word)
    {
      PreimagesAreExact(word, bytes);
      NumbersAtMostBytes(bytes);
      SpellInjective(Take(Numbers(bytes), |word|), word);
    }
  }

  lemma {:induction false} NumbersAtMostBytes(bytes: seq<byte>)
    ensures |Numbers(bytes)| <= |bytes|
  {
    if bytes == [] {
    } else {
      NumbersAtMostBytes(bytes[1..]);
    }
  }

  // ---- Uniformity of the sampler as it runs, rejected bytes included ----

  const REJECTED := 256 - LIMIT

  /**
   * One more byte in front: a rejected one leaves all of `word` to the bytes after it (`same`), an
   * accepted one must stand for its first letter and leaves the others (`next`).
   */
  function FirstByte(word: seq<letter>, same: set<seq<byte>>, next: set<seq<byte>>): set<seq<byte>> {
    if word == [] then Prefixed(BytesFrom(0), same)
    else Prefixed(BytesFrom(LIMIT), same) + Prefixed(BytesFor(word[0]), next)
  }

  /** The sequences of `m` random bytes from which the sampler takes the given letters. */
  function Outcomes(m: nat, word: seq<letter>): set<seq<byte>>
    decreases m
  {
    if m == 0 then (if word == [] then {[]} else {})
    else FirstByte(word, Outcomes(m - 1, word), Outcomes(m - 1, if word == [] then [] else word[1..]))
  }

  /** How many they are. The suffix itself does not enter. */
  function Ways(m: nat, n: nat): nat {
    if n == 0 then Pow(256, m)
    else if m == 0 then 0
    else REJECTED * Ways(m - 1, n) + 4 * Ways(m - 1, n - 1)
  }

  lemma TakeFirst<T>(first: T, rest: seq<T>, n: nat)
    requires n > 0
    ensures Take([first] + rest, n) == [first] + Take(rest, n - 1)
  {}

  lemma OutcomeStep(word: seq<letter>, bytes: seq<byte>)
    requires word != [] && bytes != []
    ensures Take(Numbers(bytes), |word|) == word <==>
              (bytes[0] >= LIMIT && Take(Numbers(bytes[1..]), |word|) == word)
              || (bytes[0] < LIMIT && bytes[0] % SIZE == word[0] && Take(Numbers(bytes[1..]), |word[1..]|) == word[1..])
  {
    if bytes[0] < LIMIT {
      var rest := Numbers(bytes[1..]);
      TakeFirst(bytes[0] % SIZE, rest, |word|);
      FirstAndRest(word);
      HeadAndTail(bytes[0] % SIZE, Take(rest, |word[1..]|), word[0], word[1..]);
    }
  }

  lemma FirstByteHolds(word: seq<letter>, same: set<seq<byte>>, next: set<seq<byte>>, bytes: seq<byte>)
    ensures bytes in FirstByte(word, same, next) <==>
              bytes != [] && (((word == [] || bytes[0] >= LIMIT) && bytes[1..] in same)
                              || (word != [] && bytes[0] < LIMIT && bytes[0] % SIZE == word[0] && bytes[1..] in next))
  {
    var all := BytesFrom(if word == [] then 0 else LIMIT);
    PrefixedMember(all, same, bytes);
    assert bytes != [] ==> (bytes[0] in all <==> AtLeast(bytes[0], if word == [] then 0 else LIMIT));
    if word != [] {
      PrefixedMember(BytesFor(word[0]), next, bytes);
    }
  }

  lemma {:induction false} OutcomesHold(m: nat, word: seq<letter>, bytes: seq<byte>)
    ensures bytes in Outcomes(m, word) <==> |bytes| == m && Take(Numbers(bytes), |word|) == word
    decreases m
  {
    if m == 0 {
    } else {
      var rest := if word == [] then [] else word[1..];
      FirstByteHolds(word, Outcomes(m - 1, word), Outcomes(m - 1, rest), bytes);
      if bytes != [] {
        OutcomesHold(m - 1, word, bytes[1..]);
        OutcomesHold(m - 1, rest, bytes[1..]);
        if word != [] {
          OutcomeStep(word, bytes);
        }
      }
    }
  }

  lemma PrefixedApart(a: set<byte>, s: set<seq<byte>>, b: set<byte>, t: set<seq<byte>>)
    requires a !! b
    ensures |Prefixed(a, s) + Prefixed(b, t)| == |a| * |s| + |b| * |t|
  {
    forall x ensures !(x in Prefixed(a, s) && x in Prefixed(b, t)) {
      PrefixedMember(a, s, x);
      PrefixedMember(b, t, x);
    }
    PrefixedSize(a, s);
    PrefixedSize(b, t);
  }

  lemma FirstByteSize(word: seq<letter>, same: set<seq<byte>>, next: set<seq<byte>>)
    ensures |FirstByte(word, same, next)| == if word == [] then 256 * |same| else REJECTED * |same| + 4 * |next|
  {
    if word == [] {
      BytesFromSize(0);
      PrefixedSize(BytesFrom(0), same);
    } else {
      BytesFromSize(LIMIT);
      PrefixedApart(BytesFrom(LIMIT), same, BytesFor(word[0]), next);
    }
  }

  lemma WaysStep(m: nat, n: nat, same: nat, next: nat)
    requires m > 0 && same == Ways(m - 1, n) && (n > 0 ==> next == Ways(m - 1, n - 1))
    ensures Ways(m, n) == if n == 0 then 256 * same else REJECTED * same + 4 * next
  {}

  lemma OutcomesSizeStep(m: nat, word: seq<letter>, rest: seq<letter>)
    requires m > 0 && rest == if word == [] then [] else word[1..]
    ensures |Outcomes(m, word)|
         == if word == [] then 256 * |Outcomes(m - 1, word)|
             else REJECTED * |Outcomes(m - 1, word)| + 4 * |Outcomes(m - 1, rest)|
  {
    var same, next := Outcomes(m - 1, word), Outcomes(m - 1, rest);
    assert Outcomes(m, word) == FirstByte(word, same, next);
    FirstByteSize(word, same, next);
  }

  lemma {:induction false} OutcomesSize(m: nat, word: seq<letter>)
    ensures |Outcomes(m, word)| == Ways(m, |word|)
    decreases m
  {
    if m == 0 {
    } else {
      var rest := if word == [] then [] else word[1..];
      OutcomesSize(m - 1, word);
      OutcomesSize(m - 1, rest);
      OutcomesSizeStep(m, word, rest);
      WaysStep(m, |word|, |Outcomes(m - 1, word)|, |Outcomes(m - 1, rest)|);
    }
  }

  /**
   * Exact uniformity of the sampler: however many random bytes are drawn, the number of ways to draw
   * them that yield a given suffix depends on the length of the suffix only.
   */
  lemma SamplerIsUniform(m: nat, word: seq<letter>)
    ensures |Outcomes(m, word)| == Ways(m, |word|)
    ensures forall bytes :: bytes in Outcomes(m, word) <==> |bytes| == m && Suffix(|word|, bytes) == Spell(word)
  {
    OutcomesSize(m, word);
    forall bytes
      ensures bytes in Outcomes(m, word) <==> |bytes| == m && Suffix(|word|, bytes) == Spell(word)
    {
      OutcomesHold(m, word, bytes);
      SpellInjective(Take(Numbers(bytes), |word|), word);
    }
  }
}
