/**
 * Base64 (section 4 of RFC 4648) and unpadded base64url (section 5), with the lenient decoder
 * of Node's `Buffer.from`: both alphabets are accepted, foreign characters are skipped,
 * decoding stops at the first `=`, and left-over bits of an incomplete group are dropped.
 */
module Base64 {
  import opened Text

  type sextet = x: int | 0 <= x < 64

  // ---- Bits ----

  /** The low `w` bits of `x`, most significant first. */
  function Bits(x: nat, w: nat): (bits: seq<int>)
    ensures |bits| == w
    decreases x, w
  {
    if w == 0 then [] else Bits(x / 2, w - 1) + [x % 2]
  }

  function BitsOfBytes(bytes: seq<byte>): seq<int> {
    if bytes == [] then [] else Bits(bytes[0], 8) + BitsOfBytes(bytes[1..])
  }

  function BitsOfSextets(sextets: seq<sextet>): seq<int> {
    if sextets == [] then [] else Bits(sextets[0], 6) + BitsOfSextets(sextets[1..])
  }

  function Pow2(k: nat): (p: int)
    ensures p > 0
  {
    if k == 0 then 1 else 2 * Pow2(k - 1)
  }

  lemma {:induction false} BitsJoin(hi: nat, lo: nat, w: nat, k: nat)
    requires 0 <= lo < Pow2(k)
    decreases k
    ensures Bits(hi * Pow2(k) + lo, w + k) == Bits(hi, w) + Bits(lo, k)
  {
    if k == 0 {
    } else {
      var p := Pow2(k - 1);
      assert hi * Pow2(k) == 2 * (hi * p);
      var x := hi * p;
      assert (2 * x + lo) / 2 == x + lo / 2 && (2 * x + lo) % 2 == lo % 2;
      BitsJoin(hi, lo / 2, w, k - 1);
      assert Bits(hi * Pow2(k) + lo, w + k) == Bits(hi * p + lo / 2, w + (k - 1)) + [lo % 2];
      assert Bits(lo, k) == Bits(lo / 2, k - 1) + [lo % 2];
    }
  }

  // ---- Regrouping ----

  /** The four sextets of a group of three bytes. */
  function GroupOf(x: int, y: int, z: int): (s: seq<sextet>)
    requires 0 <= x < 256 && 0 <= y < 256 && 0 <= z < 256
    ensures |s| == 4
  {
    [x / 4, x % 4 * 16 + y / 16, y % 16 * 4 + z / 64, z % 64]
  }

  /** The three bytes of a group of four sextets. */
  function BytesOf(p: int, q: int, r: int, s: int): (b: seq<byte>)
    requires 0 <= p < 64 && 0 <= q < 64 && 0 <= r < 64 && 0 <= s < 64
    ensures |b| == 3
  {
    [p * 4 + q / 16, q % 16 * 16 + r / 4, r % 4 * 64 + s]
  }

  /** Three bytes at a time into four sextets; a short last group is filled with zero bits. */
  function Regroup(b: seq<byte>): (s: seq<sextet>)
    ensures |s| == (4 * |b| + 2) / 3
  {
    if |b| == 0 then []
    else if |b| == 1 then GroupOf(b[0], 0, 0)[..2]
    else if |b| == 2 then GroupOf(b[0], b[1], 0)[..3]
    else GroupOf(b[0], b[1], b[2]) + Regroup(b[3..])
  }

  function Ungroup(s: seq<sextet>): (b: seq<byte>)
    ensures |b| == 3 * |s| / 4
  {
    if |s| < 2 then []
    else if |s| == 2 then BytesOf(s[0], s[1], 0, 0)[..1]
    else if |s| == 3 then BytesOf(s[0], s[1], s[2], 0)[..2]
    else BytesOf(s[0], s[1], s[2], s[3]) + Ungroup(s[4..])
  }

  lemma BytesOfGroup(x: byte, y: byte, z: byte)
    ensures var g := GroupOf(x, y, z); BytesOf(g[0], g[1], g[2], g[3]) == [x, y, z]
  {
    var g := GroupOf(x, y, z);
    assert g[1] / 16 == x % 4 && g[1] % 16 == y / 16;
    assert g[2] / 4 == y % 16 && g[2] % 4 == z / 64;
  }

  lemma {:induction false} UngroupRegroup(b: seq<byte>)
    ensures Ungroup(Regroup(b)) == b
  {
    var x: byte := if |b| > 0 then b[0] else 0;
    var y: byte := if |b| > 1 then b[1] else 0;
    var z: byte := if |b| > 2 then b[2] else 0;
    BytesOfGroup(x, y, z);
    if |b| >= 3 {
      UngroupRegroup(b[3..]);
      assert Regroup(b)[4..] == Regroup(b[3..]);
      assert b == [x, y, z] + b[3..];
    } else if |b| == 2 {
      assert BytesOf(Regroup(b)[0], Regroup(b)[1], Regroup(b)[2], 0)[..2] == [x, y];
    } else if |b| == 1 {
      assert BytesOf(Regroup(b)[0], Regroup(b)[1], 0, 0)[..1] == [x];
    }
  }

  lemma BitsCut2(x: nat, hi: nat, lo: nat, w: nat)
    requires x == 4 * hi + lo && lo < 4
    ensures Bits(x, w + 2) == Bits(hi, w) + Bits(lo, 2)
  {
    assert Pow2(2) == 4;
    BitsJoin(hi, lo, w, 2);
  }

  lemma BitsCut4(x: nat, hi: nat, lo: nat, w: nat)
    requires x == 16 * hi + lo && lo < 16
    ensures Bits(x, w + 4) == Bits(hi, w) + Bits(lo, 4)
  {
    assert Pow2(4) == 16;
    BitsJoin(hi, lo, w, 4);
  }

  lemma BitsCut6(x: nat, hi: nat, lo: nat, w: nat)
    requires x == 64 * hi + lo && lo < 64
    ensures Bits(x, w + 6) == Bits(hi, w) + Bits(lo, 6)
  {
    assert Pow2(6) == 64;
    BitsJoin(hi, lo, w, 6);
  }

  lemma RegroupSeq<T>(a: seq<T>, b: seq<T>, c: seq<T>, d: seq<T>, e: seq<T>, f: seq<T>)
    ensures a + (b + c) + (d + e) + f == (a + b) + (c + d) + (e + f)
  {}

  /** A group of three bytes and its four sextets are one string of 24 bits. */
  lemma GroupKeepsBits(x: byte, y: byte, z: byte)
    ensures BitsOfSextets(GroupOf(x, y, z)) == Bits(x, 8) + Bits(y, 8) + Bits(z, 8)
  {
    var g := GroupOf(x, y, z);
    BitsOfFour(g[0], g[1], g[2], g[3]);
    assert g == [g[0], g[1], g[2], g[3]];
    BitsCut2(x, x / 4, x % 4, 6);
    BitsCut4(y, y / 16, y % 16, 4);
    BitsCut6(z, z / 64, z % 64, 2);
    BitsCut4(g[1], x % 4, y / 16, 2);
    BitsCut2(g[2], y % 16, z / 64, 4);
    RegroupSeq(Bits(x / 4, 6), Bits(x % 4, 2), Bits(y / 16, 4), Bits(y % 16, 4), Bits(z / 64, 2), Bits(z % 64, 6));
  }

  lemma BitsOfFour(p: sextet, q: sextet, r: sextet, s: sextet)
    ensures BitsOfSextets([p, q, r, s]) == Bits(p, 6) + Bits(q, 6) + Bits(r, 6) + Bits(s, 6)
  {
    BitsOfSextetsConcat([p], [q, r, s]);
    BitsOfSextetsConcat([q], [r, s]);
    BitsOfSextetsConcat([r], [s]);
    assert [p, q, r, s] == [p] + ([q] + ([r] + [s])) && [q, r, s] == [q] + [r, s] && [r, s] == [r] + [s];
    OneSextet(p);
    OneSextet(q);
    OneSextet(r);
    OneSextet(s);
  }

  lemma OneSextet(p: sextet)
    ensures BitsOfSextets([p]) == Bits(p, 6)
  {
    assert [p][1..] == [];
  }

  lemma {:induction false} BitsOfSextetsConcat(s: seq<sextet>, t: seq<sextet>)
    ensures BitsOfSextets(s + t) == BitsOfSextets(s) + BitsOfSextets(t)
    ensures |BitsOfSextets(s)| == 6 * |s|
  {
    if s == [] {
      NothingAdded(t);
      NothingAdded(BitsOfSextets(t));
    } else {
      BitsOfSextetsConcat(s[1..], t);
      RestOfConcat(s, t);
      Associative(Bits(s[0], 6), BitsOfSextets(s[1..]), BitsOfSextets(t));
    }
  }

  /** How many zero bits the last sextet of an encoding of `n` bytes carries. */
  function FillBits(n: nat): nat {
    if n % 3 == 0 then 0 else if n % 3 == 1 then 4 else 2
  }

  function Zeros(n: nat): seq<int> { seq(n, _ => 0) }

  lemma {:induction false} ZeroBits(w: nat)
    ensures Bits(0, w) == Zeros(w)
  {
    if w == 0 {
    } else {
      ZeroBits(w - 1);
    }
  }

  lemma BitsOfOneMore(b: seq<byte>, i: nat)
    requires i < |b|
    ensures BitsOfBytes(b[i..]) == Bits(b[i], 8) + BitsOfBytes(b[i + 1..])
  {
    DropDrop(b, i, 1);
  }

  lemma BitsOfThree(b: seq<byte>)
    requires |b| >= 3
    ensures BitsOfBytes(b) == Bits(b[0], 8) + Bits(b[1], 8) + Bits(b[2], 8) + BitsOfBytes(b[3..])
  {
    BitsOfOneMore(b, 1);
    BitsOfOneMore(b, 2);
    ThreeJoined(Bits(b[0], 8), Bits(b[1], 8), Bits(b[2], 8), BitsOfBytes(b[3..]));
  }

  lemma ThreeJoined<T>(x: seq<T>, y: seq<T>, z: seq<T>, rest: seq<T>)
    ensures x + (y + (z + rest)) == x + y + z + rest
  {}

  /** The short last group: its sextets are a prefix of the full group's. */
  lemma ShortGroupKeepsBits(x: byte, y: byte)
    ensures BitsOfSextets(GroupOf(x, 0, 0)[..2]) == Bits(x, 8) + Zeros(4)
    ensures BitsOfSextets(GroupOf(x, y, 0)[..3]) == Bits(x, 8) + Bits(y, 8) + Zeros(2)
  {
    var one, two := GroupOf(x, 0, 0), GroupOf(x, y, 0);
    BitsOfSextetsConcat(one[..2], one[2..]);
    BitsOfSextetsConcat(two[..3], two[3..]);
    assert one == one[..2] + one[2..] && two == two[..3] + two[3..];
    GroupKeepsBits(x, 0, 0);
    GroupKeepsBits(x, y, 0);
    ZeroBits(8);
    PrefixOfSum(BitsOfSextets(one[..2]), BitsOfSextets(one[2..]), Bits(x, 8) + Zeros(4), Zeros(12));
    PrefixOfSum(BitsOfSextets(two[..3]), BitsOfSextets(two[3..]), Bits(x, 8) + Bits(y, 8) + Zeros(2), Zeros(6));
  }

  lemma PrefixOfSum(a: seq<int>, a': seq<int>, b: seq<int>, b': seq<int>)
    requires |a| == |b|
    ensures a + a' == b + b' ==> a == b
  {
    assert a == (a + a')[..|a|] && b == (b + b')[..|b|];
  }

  lemma BitsOfFewBytes(x: byte, y: byte)
    ensures BitsOfBytes([x]) == Bits(x, 8)
    ensures BitsOfBytes([x, y]) == Bits(x, 8) + Bits(y, 8)
  {
    assert [x][1..] == [] && [y][1..] == [] && [x, y][1..] == [y];
  }

  /** Regrouping keeps the bit string: the sextets hold the bytes' bits, then only zero bits. */
  lemma {:induction false} RegroupKeepsBits(b: seq<byte>)
    ensures BitsOfSextets(Regroup(b)) == BitsOfBytes(b) + Zeros(FillBits(|b|))
  {
    if |b| >= 3 {
      RegroupKeepsBits(b[3..]);
      RegroupKeepsBitsStep(b, Zeros(FillBits(|b[3..]|)));
      ThreeFewer(|b|);
    } else {
      FewKeepBits(b);
    }
  }

  lemma ThreeFewer(n: nat)
    requires n >= 3
    ensures FillBits(n - 3) == FillBits(n)
  {}

  lemma FewKeepBits(b: seq<byte>)
    requires |b| < 3
    ensures BitsOfSextets(Regroup(b)) == BitsOfBytes(b) + Zeros(FillBits(|b|))
  {
    if |b| == 2 {
      ShortKeepsBits(b[0], b[1]);
      TwoOf(b);
    } else if |b| == 1 {
      ShortKeepsBits(b[0], 0);
      OneOf(b);
    }
  }

  lemma OneOf<T>(s: seq<T>)
    requires |s| == 1
    ensures s == [s[0]]
  {}

  lemma TwoOf<T>(s: seq<T>)
    requires |s| == 2
    ensures s == [s[0], s[1]]
  {}

  lemma ShortKeepsBits(x: byte, y: byte)
    ensures BitsOfSextets(Regroup([x])) == BitsOfBytes([x]) + Zeros(4)
    ensures BitsOfSextets(Regroup([x, y])) == BitsOfBytes([x, y]) + Zeros(2)
  {
    ShortGroupKeepsBits(x, y);
    BitsOfFewBytes(x, y);
  }

  lemma RegroupKeepsBitsStep(b: seq<byte>, tail: seq<int>)
    requires |b| >= 3
    requires BitsOfSextets(Regroup(b[3..])) == BitsOfBytes(b[3..]) + tail
    ensures BitsOfSextets(Regroup(b)) == BitsOfBytes(b) + tail
  {
    RegroupStep(b);
    BitsOfThree(b);
    Associative(Bits(b[0], 8) + Bits(b[1], 8) + Bits(b[2], 8), BitsOfBytes(b[3..]), tail);
  }

  lemma RegroupStep(b: seq<byte>)
    requires |b| >= 3
    ensures BitsOfSextets(Regroup(b))
         == Bits(b[0], 8) + Bits(b[1], 8) + Bits(b[2], 8) + BitsOfSextets(Regroup(b[3..]))
  {
    GroupKeepsBits(b[0], b[1], b[2]);
    BitsOfSextetsConcat(GroupOf(b[0], b[1], b[2]), Regroup(b[3..]));
  }

  // ---- Alphabets ----

  function Letter(s: sextet, url: bool): char {
    if s < 26 then ('A' as int + s) as char
    else if s < 52 then ('a' as int + s - 26) as char
    else if s < 62 then ('0' as int + s - 52) as char
    else if s == 62 then (if url then '-' else '+')
    else if url then '_' else '/'
  }

  /** The sextet a character stands for, in either alphabet. */
  function SextetOf(c: char): Option<sextet> {
    if 'A' <= c <= 'Z' then Some(c as int - 'A' as int)
    else if 'a' <= c <= 'z' then Some(c as int - 'a' as int + 26)
    else if '0' <= c <= '9' then Some(c as int - '0' as int + 52)
    else if c == '+' || c == '-' then Some(62)
    else if c == '/' || c == '_' then Some(63)
    else None
  }

  predicate StandardLetter(c: char) { SextetOf(c).Some? && c != '-' && c != '_' }

  function Letters(sextets: seq<sextet>, url: bool): string {
    seq(|sextets|, i requires 0 <= i < |sextets| => Letter(sextets[i], url))
  }

  /** The decoder's reading of a text: sextets up to the first `=`, other characters skipped. */
  function Sextets(text: string): seq<sextet> {
    if text == "" || text[0] == '=' then []
    else match SextetOf(text[0])
      case Some(s) => [s] + Sextets(text[1..])
      case None => Sextets(text[1..])
  }

  // ---- Encoding and decoding ----

  function Decode(text: string): seq<byte> { Ungroup(Sextets(text)) }

  /** `toString("base64url")`: no padding. */
  function EncodeUrl(b: seq<byte>): string { Letters(Regroup(b), true) }

  /** `toString("base64")` without its padding. */
  function EncodeBare(b: seq<byte>): string { Letters(Regroup(b), false) }

  function Pads(n: nat): string { seq(n, _ => '=') }

  /** `toString("base64")`. */
  function Encode(b: seq<byte>): string {
    EncodeBare(b) + Pads(FillBits(|b|) / 2)
  }

  lemma LettersAreLetters(sextets: seq<sextet>, url: bool)
    ensures forall c :: c in Letters(sextets, url) ==> SextetOf(c).Some? && (url || StandardLetter(c))
  {
    forall c | c in Letters(sextets, url) ensures SextetOf(c).Some? && (url || StandardLetter(c)) {
      var i :| 0 <= i < |sextets| && c == Letter(sextets[i], url);
    }
  }

  /** Whatever follows a `=` does not matter. */
  lemma {:induction false} SextetsOfLetters(sextets: seq<sextet>, url: bool, after: string)
    requires after == "" || after[0] == '='
    ensures Sextets(Letters(sextets, url) + after) == sextets
  {
    if sextets == [] {
      NothingAdded(after);
    } else {
      SextetsOfLetters(sextets[1..], url, after);
      RestOfConcat(Letters(sextets, url), after);
      RestOfLetters(sextets, url);
      SextetOfLetter(sextets[0], url);
      FirstAndRest(sextets);
    }
  }

  lemma RestOfLetters(sextets: seq<sextet>, url: bool)
    requires sextets != []
    ensures Letters(sextets, url)[1..] == Letters(sextets[1..], url)
  {}

  lemma SextetOfLetter(s: sextet, url: bool)
    ensures SextetOf(Letter(s, url)) == Some(s) && Letter(s, url) != '='
  {}

  /** Both encodings decode back, padded or not, for every residue of the length modulo three. */
  lemma DecodeEncode(b: seq<byte>, pads: nat)
    ensures Decode(EncodeUrl(b)) == b
    ensures Decode(EncodeBare(b) + Pads(pads)) == b
    ensures Decode(Encode(b)) == b
  {
    SextetsOfLetters(Regroup(b), true, "");
    assert EncodeUrl(b) + "" == EncodeUrl(b);
    SextetsOfLetters(Regroup(b), false, Pads(pads));
    SextetsOfLetters(Regroup(b), false, Pads(FillBits(|b|) / 2));
    UngroupRegroup(b);
  }

  /** The first letters of an encoding depend on nothing but the bytes: equal texts, equal bytes. */
  lemma EncodeBareInjective(a: seq<byte>, b: seq<byte>)
    requires EncodeBare(a) == EncodeBare(b)
    ensures a == b
  {
    DecodeEncode(a, 0);
    DecodeEncode(b, 0);
  }

  lemma DecodedLength(text: string)
    ensures 4 * |Decode(text)| <= 3 * |text|
  {
    SextetsAtMostText(text);
  }

  lemma {:induction false} SextetsAtMostText(text: string)
    ensures |Sextets(text)| <= |text|
  {
    if text == "" || text[0] == '=' {
    } else {
      SextetsAtMostText(text[1..]);
    }
  }

  // ---- The encodings and the decoder by the tables of RFC 4648 ----

  const STANDARD_TABLE: string := UPPER + LOWER + DIGITS + "+/"
  const URL_TABLE: string := UPPER + LOWER + DIGITS + "-_"

  predicate ReadOff(table: string, sextets: seq<sextet>, text: string)
    requires |table| == 64
  {
    |text| == |sextets| && forall i :: 0 <= i < |text| ==> text[i] == table[sextets[i]]
  }

  /** `text` is the bits of `b`, six at a time and filled up with zero bits, each six a letter of the table. */
  ghost predicate EncodedBy(table: string, b: seq<byte>, text: string)
    requires |table| == 64
  {
    0 <= 6 * |text| - 8 * |b| < 6
    && exists sextets :: ReadOff(table, sextets, text)
                         && BitsOfSextets(sextets) == BitsOfBytes(b) + Zeros(6 * |text| - 8 * |b|)
  }

  lemma FillBitsAre(n: nat)
    ensures FillBits(n) == 6 * ((4 * n + 2) / 3) - 8 * n
  {
    var k, r := n / 3, n % 3;
    assert n == 3 * k + r && (4 * n + 2) / 3 == 4 * k + (4 * r + 2) / 3;
    if r == 0 {
    } else if r == 1 {
    } else {
    }
  }

  lemma LetterIsOfTable(s: sextet, url: bool)
    ensures Letter(s, url) == if url then URL_TABLE[s] else STANDARD_TABLE[s]
  {
    if s < 26 {
      UpperAt(s);
    } else if s < 52 {
      LowerAt(s - 26);
    } else if s < 62 {
      DigitAt(s - 52);
    }
  }

  /** Both encodings are those of RFC 4648, with their own letters for 62 and 63; only one of them is padded. */
  lemma EncodedByTheTables(b: seq<byte>)
    ensures EncodedBy(URL_TABLE, b, EncodeUrl(b)) && EncodedBy(STANDARD_TABLE, b, EncodeBare(b))
    ensures Encode(b) == EncodeBare(b) + ["", "==", "="][|b| % 3]
  {
    forall s: sextet ensures Letter(s, true) == URL_TABLE[s] && Letter(s, false) == STANDARD_TABLE[s] {
      LetterIsOfTable(s, true);
      LetterIsOfTable(s, false);
    }
    ByTheTable(URL_TABLE, b, true);
    ByTheTable(STANDARD_TABLE, b, false);
    assert Pads(0) == "" && Pads(1) == "=" && Pads(2) == "==";
  }

  lemma ByTheTable(table: string, b: seq<byte>, url: bool)
    requires |table| == 64 && forall s: sextet :: Letter(s, url) == table[s]
    ensures EncodedBy(table, b, Letters(Regroup(b), url))
  {
    RegroupKeepsBits(b);
    FillBitsAre(|b|);
    assert ReadOff(table, Regroup(b), Letters(Regroup(b), url));
  }

  lemma {:induction false} SextetsConcat(a: string, b: string)
    requires forall k :: 0 <= k < |a| ==> a[k] != '='
    ensures Sextets(a + b) == Sextets(a) + Sextets(b)
  {
    if a == "" {
      NothingAdded(b);
      NothingAdded(Sextets(b));
    } else {
      RestOfConcat(a, b);
      SextetsConcat(a[1..], b);
      if SextetOf(a[0]).Some? {
        Associative([SextetOf(a[0]).value], Sextets(a[1..]), Sextets(b));
      }
    }
  }

  /** What a letter is worth: its place in either table. */
  lemma LetterWorth(s: sextet)
    ensures SextetOf(STANDARD_TABLE[s]) == Some(s) && SextetOf(URL_TABLE[s]) == Some(s)
  {
    LetterIsOfTable(s, true);
    LetterIsOfTable(s, false);
  }

  lemma ForeignIsWorthless(c: char)
    requires c !in STANDARD_TABLE && c !in URL_TABLE
    ensures SextetOf(c) == None
  {
    if SextetOf(c).Some? {
      var s := SextetOf(c).value;
      assert c == STANDARD_TABLE[s] || c == URL_TABLE[s] by {
        LetterIsOfTable(s, true);
        LetterIsOfTable(s, false);
      }
    }
  }

  /** The letters that the transport check allows are those of the standard table. */
  lemma StandardLettersAre(c: char)
    ensures StandardLetter(c) <==> c in STANDARD_TABLE
  {
    if StandardLetter(c) {
      LetterIsOfTable(SextetOf(c).value, false);
    } else if c in STANDARD_TABLE {
      var i :| 0 <= i < 64 && STANDARD_TABLE[i] == c;
      LetterIsOfTable(i, false);
    }
  }

  /**
   * The decoder reads both alphabets as one, skips every character that is in neither, and reads
   * nothing behind an equals sign.
   */
  lemma DecoderIsLenient(a: string, s: sextet, c: char, b: string)
    requires forall k :: 0 <= k < |a| ==> a[k] != '='
    requires c !in STANDARD_TABLE && c !in URL_TABLE && c != '='
    ensures Decode(a + [STANDARD_TABLE[s]] + b) == Decode(a + [URL_TABLE[s]] + b)
    ensures Decode(a + [c] + b) == Decode(a + b)
    ensures Decode(a + ['='] + b) == Decode(a)
  {
    LetterWorth(s);
    ForeignIsWorthless(c);
    SextetsAround(a, STANDARD_TABLE[s], b);
    SextetsAround(a, URL_TABLE[s], b);
    SextetsAround(a, c, b);
    SextetsAround(a, '=', b);
    SextetsConcat(a, b);
    NothingAdded(Sextets(a));
  }

  lemma SextetsAround(a: string, c: char, b: string)
    requires forall k :: 0 <= k < |a| ==> a[k] != '='
    ensures Sextets(a + [c] + b) == Sextets(a) + if c == '=' then []
                                                  else match SextetOf(c)
                                                    case Some(s) => [s] + Sextets(b)
                                                    case None => Sextets(b)
  {
    Associative(a, [c], b);
    SextetsConcat(a, [c] + b);
    RestOfCons(c, b);
  }
}
