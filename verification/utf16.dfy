/**
 * JavaScript strings: sequences of UTF-16 code units, of which any may be a surrogate without its
 * partner. Written as UTF-8, such a surrogate becomes U+FFFD.
 */
module Utf16 {
  import opened Text
  import Utf8

  type Unit = u: int | 0 <= u < 0x1_0000

  predicate IsHigh(u: Unit) { 0xD800 <= u < 0xDC00 }
  predicate IsLow(u: Unit) { 0xDC00 <= u < 0xE000 }

  /** Two surrogates that make one character. */
  predicate PairFirst(s: seq<Unit>) { |s| >= 2 && IsHigh(s[0]) && IsLow(s[1]) }

  function OfPair(high: Unit, low: Unit): char
    requires IsHigh(high) && IsLow(low)
  {
    (0x1_0000 + (high - 0xD800) * 0x400 + (low - 0xDC00)) as char
  }

  /** The characters of a JavaScript string. */
  function Chars(s: seq<Unit>): string
    decreases |s|
  {
    if s == [] then ""
    else if PairFirst(s) then [OfPair(s[0], s[1])] + Chars(s[2..])
    else if IsHigh(s[0]) || IsLow(s[0]) then [Utf8.REPLACEMENT] + Chars(s[1..])
    else [s[0] as char] + Chars(s[1..])
  }

  function UnitsOf(c: char): seq<Unit> {
    var n := c as int;
    if n < 0x1_0000 then [n] else [0xD800 + (n - 0x1_0000) / 0x400, 0xDC00 + (n - 0x1_0000) % 0x400]
  }

  /** The JavaScript string with these characters. */
  function Units(t: string): seq<Unit> {
    if t == "" then [] else UnitsOf(t[0]) + Units(t[1..])
  }

  /** No surrogate stands without its partner. */
  predicate Paired(s: seq<Unit>)
    decreases |s|
  {
    s == [] || if PairFirst(s) then Paired(s[2..]) else !IsHigh(s[0]) && !IsLow(s[0]) && Paired(s[1..])
  }

  lemma {:induction false} CharsOfUnits(t: string)
    ensures Chars(Units(t)) == t && Paired(Units(t))
  {
    if t == "" {
    } else {
      var s, u, rest := Units(t), UnitsOf(t[0]), Units(t[1..]);
      CharsOfUnits(t[1..]);
      FirstAndRest(t);
      if |u| == 1 {
        assert s[1..] == rest;
      } else {
        assert s[2..] == rest;
      }
    }
  }

  lemma PairOfChar(high: Unit, low: Unit)
    requires IsHigh(high) && IsLow(low)
    ensures UnitsOf(OfPair(high, low)) == [high, low]
  {}

  /** A JavaScript string comes back from its characters exactly if no surrogate in it is unpaired. */
  lemma {:induction false} UnitsOfCharsExactly(s: seq<Unit>)
    ensures Units(Chars(s)) == s <==> Paired(s)
    ensures |Units(Chars(s))| == |s|
    decreases |s|
  {
    if s == [] {
    } else if PairFirst(s) {
      UnitsOfCharsExactly(s[2..]);
      PairOfChar(s[0], s[1]);
      var rest := Chars(s[2..]);
      RestOfCons(OfPair(s[0], s[1]), rest);
      assert s == [s[0], s[1]] + s[2..];
      assert ([s[0], s[1]] + Units(rest))[2..] == Units(rest);
    } else {
      UnitsOfCharsExactly(s[1..]);
      var rest := Chars(s[1..]);
      var first := Chars(s)[0];
      RestOfCons(first, rest);
      FirstAndRest(s);
      assert Units(Chars(s)) == UnitsOf(first) + Units(rest);
      assert (UnitsOf(first) + Units(rest))[1..] == Units(rest);
    }
  }

  /** Through UTF-8 and back: the same, whatever the string. */
  lemma ThroughUtf8Exactly(s: seq<Unit>)
    ensures Units(Utf8.Decode(Utf8.Encode(Chars(s)))) == s <==> Paired(s)
  {
    Utf8.DecodeEncode(Chars(s));
    UnitsOfCharsExactly(s);
  }
}
