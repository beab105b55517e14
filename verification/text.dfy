/** Options, bytes, and the few string operations every other module builds on. */
module Text {

  datatype Option<+T> = None | Some(value: T)

  type byte = x: int | 0 <= x < 256

  // ---- Sequences taken apart and put together ----

  lemma Associative<T>(a: seq<T>, b: seq<T>, c: seq<T>)
    ensures a + (b + c) == a + b + c
  {}

  lemma NothingAdded<T>(a: seq<T>)
    ensures a + [] == a && [] + a == a
  {}

  lemma FirstAndRest<T>(s: seq<T>)
    requires s != []
    ensures s == [s[0]] + s[1..]
  {}

  lemma RestOfConcat<T>(a: seq<T>, b: seq<T>)
    requires a != []
    ensures (a + b)[1..] == a[1..] + b && (a + b)[0] == a[0] && |a + b| > 0
  {}

  lemma RestOfCons<T>(x: T, s: seq<T>)
    ensures ([x] + s)[0] == x && ([x] + s)[1..] == s
  {}

  lemma DropDrop<T>(s: seq<T>, i: nat, j: nat)
    requires i + j <= |s|
    ensures s[i..][j..] == s[i + j..]
  {}

  // ---- Splitting ----

  /** The pieces of `s` between occurrences of `sep`; never fewer than one piece. */
  function Split(s: string, sep: char): (parts: seq<string>)
    ensures |parts| >= 1
    ensures forall p :: p in parts ==> sep !in p
  {
    if s == "" then [""]
    else
      var rest := Split(s[1..], sep);
      if s[0] == sep then [""] + rest
      else [[s[0]] + rest[0]] + rest[1..]
  }

  /** The pieces with `sep` between neighbours. */
  function Join(parts: seq<string>, sep: char): string
  {
    if |parts| == 0 then ""
    else if |parts| == 1 then parts[0]
    else parts[0] + [sep] + Join(parts[1..], sep)
  }

  lemma {:induction false} SplitOfPiece(p: string, sep: char)
    requires sep !in p
    ensures Split(p, sep) == [p]
  {
    if p == "" {
    } else {
      assert p[0] in p && forall c :: c in p[1..] ==> c in p;
      SplitOfPiece(p[1..], sep);
      assert p == [p[0]] + p[1..];
    }
  }

  /** No piece of text with `c` in it. */
  predicate Free(s: string, c: char) { forall k :: 0 <= k < |s| ==> s[k] != c }

  /** Text without the separator goes to the first piece. */
  lemma {:induction false} SplitBehind(p: string, t: string, sep: char)
    requires Free(p, sep)
    ensures Split(p + t, sep) == [p + Split(t, sep)[0]] + Split(t, sep)[1..]
  {
    var first := Split(t, sep)[0];
    if p == "" {
      NothingAdded(t);
      NothingAdded(first);
    } else {
      SplitBehind(p[1..], t, sep);
      RestOfConcat(p, t);
      FirstAndRest(p);
      Associative([p[0]], p[1..], first);
      RestOfCons(p[1..] + first, Split(t, sep)[1..]);
    }
  }

  lemma {:induction false} SplitAtSeparator(p: string, rest: string, sep: char)
    requires sep !in p
    ensures Split(p + [sep] + rest, sep) == [p] + Split(rest, sep)
  {
    var s := p + [sep] + rest;
    if p == "" {
      assert s[1..] == rest;
    } else {
      assert p[0] in p && forall c :: c in p[1..] ==> c in p;
      SplitAtSeparator(p[1..], rest, sep);
      assert s[1..] == p[1..] + [sep] + rest;
      assert p == [p[0]] + p[1..];
    }
  }

  /** Splitting undoes joining, as long as no piece holds the separator. */
  lemma {:induction false} SplitJoin(parts: seq<string>, sep: char)
    requires |parts| >= 1
    requires forall p :: p in parts ==> sep !in p
    ensures Split(Join(parts, sep), sep) == parts
  {
    if |parts| == 1 {
      SplitOfPiece(parts[0], sep);
    } else {
      SplitJoin(parts[1..], sep);
      SplitAtSeparator(parts[0], Join(parts[1..], sep), sep);
    }
  }

  /** Joining undoes splitting. */
  lemma {:induction false} JoinSplit(s: string, sep: char)
    ensures Join(Split(s, sep), sep) == s
  {
    if s == "" {
    } else {
      JoinSplit(s[1..], sep);
      JoinFirst(s[0], Split(s[1..], sep), sep);
      assert s == [s[0]] + s[1..];
    }
  }

  lemma JoinFirst(c: char, parts: seq<string>, sep: char)
    requires |parts| >= 1
    ensures Join([[c] + parts[0]] + parts[1..], sep) == [c] + Join(parts, sep)
    ensures Join([""] + parts, sep) == [sep] + Join(parts, sep)
  {
    RestOfCons([c] + parts[0], parts[1..]);
    RestOfCons("", parts);
    NothingAdded([sep]);
    if |parts| > 1 {
      Associative([c], parts[0], [sep]);
      Associative([c], parts[0] + [sep], Join(parts[1..], sep));
    }
  }

  // ---- Runs of characters of one class ----

  /** Every character of `s[i..j]` is in the class. */
  predicate AllIn(s: string, i: nat, j: nat, cls: char -> bool) {
    forall k :: i <= k < j && k < |s| ==> cls(s[k])
  }

  /** Where the longest run of the class starting at `i` ends. */
  function RunEnd(s: string, i: nat, cls: char -> bool): (j: nat)
    requires i <= |s|
    ensures i <= j <= |s|
    ensures AllIn(s, i, j, cls) && (j < |s| ==> !cls(s[j]))
    decreases |s| - i
  {
    if i < |s| && cls(s[i]) then RunEnd(s, i + 1, cls) else i
  }

  lemma RunEndIs(s: string, i: nat, j: nat, cls: char -> bool)
    requires i <= j <= |s| && AllIn(s, i, j, cls) && (j < |s| ==> !cls(s[j]))
    ensures RunEnd(s, i, cls) == j
  {
    var r := RunEnd(s, i, cls);
    assert r < |s| ==> !cls(s[r]);
  }

  // ---- Decimal printing ----

  predicate IsDigit(c: char) { '0' <= c <= '9' }

  /** `String(n)` of a natural number. */
  function Decimal(n: nat): (s: string)
    ensures s != "" && forall c :: c in s ==> IsDigit(c)
  {
    var last := [('0' as int + n % 10) as char];
    if n < 10 then last else Decimal(n / 10) + last
  }

  function DecimalValue(s: string): nat
  {
    if s == "" then 0
    else if IsDigit(s[|s| - 1]) then 10 * DecimalValue(s[..|s| - 1]) + (s[|s| - 1] as int - '0' as int)
    else 0
  }

  lemma {:induction false} DecimalValueOfDecimal(n: nat)
    ensures DecimalValue(Decimal(n)) == n
  {
    var s := Decimal(n);
    if n < 10 {
      assert s[..0] == "";
    } else {
      DecimalValueOfDecimal(n / 10);
      assert s[..|s| - 1] == Decimal(n / 10);
    }
  }

  lemma DecimalInjective(m: nat, n: nat)
    requires Decimal(m) == Decimal(n)
    ensures m == n
  {
    DecimalValueOfDecimal(m);
    DecimalValueOfDecimal(n);
  }

  // ---- ASCII case folding, per code unit ----

  function LowerAscii(c: char): (l: char)
    ensures !('A' <= l <= 'Z')
  {
    if 'A' <= c <= 'Z' then (c as int + 32) as char else c
  }

  function LowerAsciiText(s: string): (l: string)
    ensures |l| == |s| && forall i :: 0 <= i < |s| ==> l[i] == LowerAscii(s[i])
  {
    seq(|s|, i requires 0 <= i < |s| => LowerAscii(s[i]))
  }

  // ---- The ASCII letters and digits ----

  const UPPER := "ABCDEFGHIJKLMNOPQRSTUVWXYZ"
  const LOWER := "abcdefghijklmnopqrstuvwxyz"
  const DIGITS := "0123456789"

  lemma UpperAt(i: nat)
    requires i < 26
    ensures UPPER[i] as int == 'A' as int + i
  {}

  lemma LowerAt(i: nat)
    requires i < 26
    ensures LOWER[i] as int == 'a' as int + i
  {}

  lemma DigitAt(i: nat)
    requires i < 10
    ensures DIGITS[i] as int == '0' as int + i
  {}

  /** Each capital letter becomes the small letter at its place, and nothing else changes. */
  lemma LowerAsciiIs(c: char)
    ensures forall i :: 0 <= i < 26 ==> LowerAscii(UPPER[i]) == LOWER[i]
    ensures c !in UPPER ==> LowerAscii(c) == c
  {
    forall i | 0 <= i < 26 ensures LowerAscii(UPPER[i]) == LOWER[i] {
      UpperAt(i);
      LowerAt(i);
    }
    if 'A' <= c <= 'Z' {
      UpperAt(c as int - 'A' as int);
    }
  }

  lemma IsDigitIs(c: char)
    ensures IsDigit(c) <==> c in DIGITS
  {
    if IsDigit(c) {
      DigitAt(c as int - '0' as int);
      assert DIGITS[c as int - '0' as int] == c;
    } else if c in DIGITS {
      var i :| 0 <= i < 10 && DIGITS[i] == c;
      DigitAt(i);
      assert false;
    }
  }
}
