/**
 * UTF-8 (section 3 of RFC 3629). Decoding never fails: the longest start of a character that could
 * still have become one, or else a single byte, is read as U+FFFD.
 */
module Utf8 {
  import opened Text

  const REPLACEMENT: char := '\U{FFFD}'

  function EncodeChar(c: char): seq<byte> {
    var n := c as int;
    if n < 0x80 then [n]
    else if n < 0x800 then [0xC0 + n / 64, 0x80 + n % 64]
    else if n < 0x1_0000 then [0xE0 + n / 4096, 0x80 + n / 64 % 64, 0x80 + n % 64]
    else [0xF0 + n / 0x4_0000, 0x80 + n / 4096 % 64, 0x80 + n / 64 % 64, 0x80 + n % 64]
  }

  function Encode(s: string): seq<byte> {
    if s == "" then [] else EncodeChar(s[0]) + Encode(s[1..])
  }

  /** Whether the byte at `i` is there and between `lo` and `hi`. */
  predicate Between(b: seq<byte>, i: nat, lo: int, hi: int) { i < |b| && lo <= b[i] <= hi }

  /** The second byte of a three-byte character, which rules out overlong forms and surrogates. */
  predicate SecondOfThree(b: seq<byte>)
    requires b != []
  {
    Between(b, 1, if b[0] == 0xE0 then 0xA0 else 0x80, if b[0] == 0xED then 0x9F else 0xBF)
  }

  predicate SecondOfFour(b: seq<byte>)
    requires b != []
  {
    Between(b, 1, if b[0] == 0xF0 then 0x90 else 0x80, if b[0] == 0xF4 then 0x8F else 0xBF)
  }

  /** The first character of the bytes, and how many bytes it takes. */
  function DecodeFirst(b: seq<byte>): (r: (char, nat))
    requires b != []
    ensures 1 <= r.1 <= |b|
  {
    var lead: int := b[0];
    if lead < 0x80 then (lead as char, 1)
    else if 0xC2 <= lead < 0xE0 then
      if Between(b, 1, 0x80, 0xBF) then (((lead - 0xC0) * 64 + (b[1] as int - 0x80)) as char, 2) else (REPLACEMENT, 1)
    else if 0xE0 <= lead < 0xF0 then
      if !SecondOfThree(b) then (REPLACEMENT, 1)
      else if !Between(b, 2, 0x80, 0xBF) then (REPLACEMENT, 2)
      else (((lead - 0xE0) * 4096 + (b[1] as int - 0x80) * 64 + (b[2] as int - 0x80)) as char, 3)
    else if 0xF0 <= lead < 0xF5 then
      if !SecondOfFour(b) then (REPLACEMENT, 1)
      else if !Between(b, 2, 0x80, 0xBF) then (REPLACEMENT, 2)
      else if !Between(b, 3, 0x80, 0xBF) then (REPLACEMENT, 3)
      else (((lead - 0xF0) * 0x4_0000 + (b[1] as int - 0x80) * 4096
             + (b[2] as int - 0x80) * 64 + (b[3] as int - 0x80)) as char, 4)
    else (REPLACEMENT, 1)
  }

  function Decode(b: seq<byte>): string
    decreases |b|
  {
    if b == [] then ""
    else
      var (c, n) := DecodeFirst(b);
      [c] + Decode(b[n..])
  }

  lemma TwoBytes(n: int, p: int, r: int, b: seq<byte>)
    requires 0x80 <= n < 0x800 && n == p * 64 + r && 0 <= r < 64
    requires |b| >= 2 && b[0] == 0xC0 + p && b[1] == 0x80 + r
    ensures DecodeFirst(b) == (n as char, 2)
  {}

  lemma ThreeBytes(n: int, p: int, q: int, r: int, b: seq<byte>)
    requires 0x800 <= n < 0xD800 || 0xE000 <= n < 0x1_0000
    requires n == p * 4096 + q * 64 + r && 0 <= q < 64 && 0 <= r < 64
    requires |b| >= 3 && b[0] == 0xE0 + p && b[1] == 0x80 + q && b[2] == 0x80 + r
    ensures DecodeFirst(b) == (n as char, 3)
  {
    assert p == 0 ==> q >= 32;
    assert p == 13 ==> q < 32;
  }

  lemma FourBytes(n: int, o: int, p: int, q: int, r: int, b: seq<byte>)
    requires 0x1_0000 <= n < 0x11_0000
    requires n == o * 0x4_0000 + p * 4096 + q * 64 + r && 0 <= p < 64 && 0 <= q < 64 && 0 <= r < 64
    requires |b| >= 4 && b[0] == 0xF0 + o && b[1] == 0x80 + p && b[2] == 0x80 + q && b[3] == 0x80 + r
    ensures DecodeFirst(b) == (n as char, 4)
  {
    assert o == 0 ==> p >= 16;
    assert o == 4 ==> p < 16;
  }

  lemma HeadOf(e: seq<byte>, rest: seq<byte>)
    ensures forall i :: 0 <= i < |e| ==> (e + rest)[i] == e[i]
  {}

  lemma DecodeFirstOfThree(c: char, b: seq<byte>)
    requires 0x800 <= c as int < 0x1_0000 && |b| >= 3
    requires forall i :: 0 <= i < 3 ==> b[i] == EncodeChar(c)[i]
    ensures DecodeFirst(b) == (c, 3)
  {
    var n := c as int;
    ThreeBytes(n, n / 4096, n / 64 % 64, n % 64, b);
  }

  lemma InFour(n: nat)
    ensures n == n / 0x4_0000 * 0x4_0000 + n / 4096 % 64 * 4096 + n / 64 % 64 * 64 + n % 64
  {
    var a := n / 64;
    var b := a / 64;
    assert n / 4096 == b && n / 0x4_0000 == b / 64;
  }

  lemma DecodeFirstOfFour(c: char, b: seq<byte>)
    requires c as int >= 0x1_0000 && |b| >= 4
    requires forall i :: 0 <= i < 4 ==> b[i] == EncodeChar(c)[i]
    ensures DecodeFirst(b) == (c, 4)
  {
    var n := c as int;
    InFour(n);
    FourBytes(n, n / 0x4_0000, n / 4096 % 64, n / 64 % 64, n % 64, b);
  }

  lemma DecodeFirstOfEncoded(c: char, rest: seq<byte>)
    ensures DecodeFirst(EncodeChar(c) + rest) == (c, |EncodeChar(c)|)
  {
    var n := c as int;
    HeadOf(EncodeChar(c), rest);
    if n >= 0x1_0000 {
      DecodeFirstOfFour(c, EncodeChar(c) + rest);
    } else if n >= 0x800 {
      DecodeFirstOfThree(c, EncodeChar(c) + rest);
    } else if n >= 0x80 {
      TwoBytes(n, n / 64, n % 64, EncodeChar(c) + rest);
    }
  }

  /** Every text comes back. */
  lemma {:induction false} DecodeEncode(s: string)
    ensures Decode(Encode(s)) == s
  {
    if s == "" {
    } else {
      DecodeFirstOfEncoded(s[0], Encode(s[1..]));
      DecodeEncode(s[1..]);
      assert Encode(s)[|EncodeChar(s[0])|..] == Encode(s[1..]);
    }
  }

  // ---- What any bytes are read as ----

  /** The first `n` bytes are the first `n` bytes of some character. */
  ghost predicate Starts(b: seq<byte>, n: nat) {
    n <= |b| && exists c: char :: n <= |EncodeChar(c)| && EncodeChar(c)[..n] == b[..n]
  }

  /** The bytes begin with the whole of a character. */
  ghost predicate BeginsWith(b: seq<byte>, c: char) { EncodeChar(c) <= b }

  predicate Tail(x: byte) { 0x80 <= x <= 0xBF }

  /** The table of well-formed bytes (section 4 of RFC 3629), as far as the bytes go. */
  predicate Fits(b: seq<byte>)
    requires b != []
  {
    && (b[0] < 0x80 || 0xC2 <= b[0] < 0xF5)
    && (|b| > 1 ==> Tail(b[1]) && b[0] >= 0xC2 && (b[0] == 0xE0 ==> b[1] >= 0xA0) && (b[0] == 0xED ==> b[1] <= 0x9F)
                    && (b[0] == 0xF0 ==> b[1] >= 0x90) && (b[0] == 0xF4 ==> b[1] <= 0x8F))
    && (|b| > 2 ==> Tail(b[2]) && b[0] >= 0xE0)
    && (|b| > 3 ==> Tail(b[3]) && b[0] >= 0xF0)
  }

  lemma EncodedFits(c: char)
    ensures Fits(EncodeChar(c)) && 1 <= |EncodeChar(c)| <= 4
  {
    var n := c as int;
    if n >= 0x1_0000 {
      InFour(n);
    }
  }

  lemma StartFits(b: seq<byte>, n: nat)
    requires 1 <= n && Starts(b, n)
    ensures Fits(b[..n]) && n <= 4
  {
    var c: char :| n <= |EncodeChar(c)| && EncodeChar(c)[..n] == b[..n];
    EncodedFits(c);
    assert forall i :: 0 <= i < n ==> EncodeChar(c)[..n][i] == EncodeChar(c)[i];
  }

  lemma TwoEncoded(p: int, q: int) returns (c: char)
    requires 2 <= p < 32 && 0 <= q < 64
    ensures c as int == p * 64 + q && EncodeChar(c) == [0xC0 + p, 0x80 + q]
  {
    c := (p * 64 + q) as char;
  }

  lemma ThreeEncoded(p: int, q: int, r: int) returns (c: char)
    requires 0 <= p < 16 && 0 <= q < 64 && 0 <= r < 64 && (p == 0 ==> q >= 32) && (p == 13 ==> q < 32)
    ensures c as int == p * 4096 + q * 64 + r && EncodeChar(c) == [0xE0 + p, 0x80 + q, 0x80 + r]
  {
    c := (p * 4096 + q * 64 + r) as char;
    var n := p * 4096 + q * 64 + r;
    assert n / 64 == p * 64 + q && n / 4096 == p;
  }

  lemma FourEncoded(o: int, p: int, q: int, r: int) returns (c: char)
    requires 0 <= o < 5 && 0 <= p < 64 && 0 <= q < 64 && 0 <= r < 64 && (o == 0 ==> p >= 16) && (o == 4 ==> p < 16)
    ensures c as int == o * 0x4_0000 + p * 4096 + q * 64 + r
    ensures EncodeChar(c) == [0xF0 + o, 0x80 + p, 0x80 + q, 0x80 + r]
  {
    c := (o * 0x4_0000 + p * 4096 + q * 64 + r) as char;
    var n := o * 0x4_0000 + p * 4096 + q * 64 + r;
    assert n / 64 == o * 4096 + p * 64 + q && n / 4096 == o * 64 + p && n / 0x4_0000 == o;
  }

  /** The smallest second byte that fits a first one. */
  function Least(lead: byte): byte { if lead == 0xE0 then 0xA0 else if lead == 0xF0 then 0x90 else 0x80 }

  /** A character for bytes that fit, with the smallest bytes for those that are missing. */
  lemma FittingCompletes(b: seq<byte>) returns (c: char)
    requires 1 <= |b| <= 4 && Fits(b)
    ensures b <= EncodeChar(c)
  {
    var lead: int := b[0];
    var x1: int := if |b| > 1 then b[1] else Least(b[0]);
    var x2: int := if |b| > 2 then b[2] else 0x80;
    var x3: int := if |b| > 3 then b[3] else 0x80;
    if lead < 0x80 {
      c := lead as char;
    } else if lead < 0xE0 {
      c := TwoEncoded(lead - 0xC0, x1 - 0x80);
    } else if lead < 0xF0 {
      c := ThreeEncoded(lead - 0xE0, x1 - 0x80, x2 - 0x80);
    } else {
      c := FourEncoded(lead - 0xF0, x1 - 0x80, x2 - 0x80, x3 - 0x80);
    }
  }

  /** Bytes are the start of a character exactly if they fit the table. */
  lemma StartsExactly(b: seq<byte>, n: nat)
    requires 1 <= n <= |b|
    ensures Starts(b, n) <==> n <= 4 && Fits(b[..n])
  {
    if Starts(b, n) {
      StartFits(b, n);
    }
    if n <= 4 && Fits(b[..n]) {
      var c := FittingCompletes(b[..n]);
      assert EncodeChar(c)[..n] == b[..n];
    }
  }

  lemma BeginningIsRead(b: seq<byte>, c: char)
    requires BeginsWith(b, c)
    ensures b != [] && DecodeFirst(b) == (c, |EncodeChar(c)|)
  {
    var e := EncodeChar(c);
    assert b == e + b[|e|..];
    DecodeFirstOfEncoded(c, b[|e|..]);
  }

  /** Whatever is not read as U+FFFD begins the bytes. */
  lemma ReadIsBeginning(b: seq<byte>)
    requires b != [] && DecodeFirst(b).0 != REPLACEMENT
    ensures BeginsWith(b, DecodeFirst(b).0)
  {
    var lead: int := b[0];
    if lead < 0x80 {
    } else if lead < 0xE0 {
      var c := TwoEncoded(lead - 0xC0, b[1] as int - 0x80);
    } else if lead < 0xF0 {
      var c := ThreeEncoded(lead - 0xE0, b[1] as int - 0x80, b[2] as int - 0x80);
    } else {
      var c := FourEncoded(lead - 0xF0, b[1] as int - 0x80, b[2] as int - 0x80, b[3] as int - 0x80);
    }
  }

  /**
   * Any bytes at all: if they begin with a character, that one is read; if not, the longest start of a
   * character that they begin with is read as U+FFFD, or one byte if they begin with none.
   */
  lemma ReadExactly(b: seq<byte>)
    requires b != []
    ensures var (c, n) := DecodeFirst(b);
            if exists d :: BeginsWith(b, d) then BeginsWith(b, c) && n == |EncodeChar(c)|
            else c == REPLACEMENT && (n == 1 || Starts(b, n)) && !Starts(b, n + 1)
  {
    var (c, n) := DecodeFirst(b);
    if d :| BeginsWith(b, d) {
      BeginningIsRead(b, d);
    } else {
      if c != REPLACEMENT {
        ReadIsBeginning(b);
      }
      StartsExactly(b, n);
      if n < |b| {
        StartsExactly(b, n + 1);
      }
    }
  }
}
