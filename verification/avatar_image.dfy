/** Acceptance of a profile photo: canonical base64 of a PNG header (sections 3.1 and 4.1.1 of RFC 2083). */
module AvatarImage {
  import opened Text
  import opened Base64

  const MAX_AVATAR_BYTES := 400 * 1024
  const MAX_AVATAR_DIMENSION := 512
  const MIN_PNG_BYTES := 24
  const PNG_MAGIC: seq<byte> := [0x89, 0x50, 0x4e, 0x47, 0x0d, 0x0a, 0x1a, 0x0a]
  const IHDR: seq<byte> := [0x49, 0x48, 0x44, 0x52]
  const MAX_TRANSPORT := (MAX_AVATAR_BYTES * 4 + 2) / 3 + 128

  datatype Avatar = Avatar(bytes: seq<byte>, width: nat, height: nat)

  /** `/^[A-Za-z0-9+/]+={0,2}$/` with `n` equals signs. */
  predicate Transport(text: string, n: nat) {
    n <= 2 && n < |text| && text[|text| - n..] == Pads(n)
    && forall i :: 0 <= i < |text| - n ==> StandardLetter(text[i])
  }

  /** `text.replace(/=+$/, "")`. */
  function StripPads(text: string): string {
    if text != "" && text[|text| - 1] == '=' then StripPads(text[..|text| - 1]) else text
  }

  function UInt32BE(b: seq<byte>, offset: nat): (n: nat)
    requires offset + 4 <= |b|
    ensures n < 0x1_0000_0000
  {
    var b0: int, b1: int, b2: int, b3: int := b[offset], b[offset + 1], b[offset + 2], b[offset + 3];
    b0 * 0x100_0000 + b1 * 0x1_0000 + b2 * 0x100 + b3
  }

  /** Node's `ascii` decoding keeps the low seven bits of each byte. */
  function LowSeven(b: seq<byte>): seq<int> {
    seq(|b|, i requires 0 <= i < |b| => b[i] % 128)
  }

  /** The header checks on the decoded bytes. */
  function CheckHeader(bytes: seq<byte>): Option<Avatar> {
    if |bytes| < MIN_PNG_BYTES || |bytes| > MAX_AVATAR_BYTES then None
    else if bytes[..8] != PNG_MAGIC then None
    else if LowSeven(bytes[12..16]) != IHDR then None
    else
      var width, height := UInt32BE(bytes, 16), UInt32BE(bytes, 20);
      if width < 1 || height < 1 then None
      else if width > MAX_AVATAR_DIMENSION || height > MAX_AVATAR_DIMENSION then None
      else Some(Avatar(bytes, width, height))
  }

  function ValidateAvatarImage(base64: string): Option<Avatar> {
    if |base64| == 0 || |base64| > MAX_TRANSPORT then None
    else if !(Transport(base64, 0) || Transport(base64, 1) || Transport(base64, 2)) then None
    else
      var bytes := Decode(base64);
      if StripPads(Encode(bytes)) != StripPads(base64) then None
      else CheckHeader(bytes)
  }

  lemma {:induction false} StripPadsOf(text: string, n: nat)
    requires text == "" || text[|text| - 1] != '='
    ensures StripPads(text + Pads(n)) == text
  {
    var t := text + Pads(n);
    if n > 0 {
      assert t[..|t| - 1] == text + Pads(n - 1);
      StripPadsOf(text, n - 1);
    } else {
      assert t == text;
    }
  }

  lemma EncodeBareEnds(bytes: seq<byte>)
    ensures forall i :: 0 <= i < |EncodeBare(bytes)| ==> StandardLetter(EncodeBare(bytes)[i])
  {
    LettersAreLetters(Regroup(bytes), false);
    forall i | 0 <= i < |EncodeBare(bytes)| ensures StandardLetter(EncodeBare(bytes)[i]) {
      assert EncodeBare(bytes)[i] in Letters(Regroup(bytes), false);
    }
  }

  lemma EncodeStripped(bytes: seq<byte>, n: nat)
    ensures StripPads(EncodeBare(bytes) + Pads(n)) == EncodeBare(bytes)
    ensures StripPads(Encode(bytes)) == EncodeBare(bytes)
  {
    EncodeBareEnds(bytes);
    StripPadsOf(EncodeBare(bytes), n);
    StripPadsOf(EncodeBare(bytes), FillBits(|bytes|) / 2);
  }

  /** Some number of equals signs, at most two, follows. */
  predicate Padded(text: string, bare: string, n: nat) { n <= 2 && text == bare + Pads(n) }

  lemma TransportStripped(text: string, n: nat)
    requires Transport(text, n)
    ensures text == StripPads(text) + Pads(n)
  {
    var bare := text[..|text| - n];
    assert text == bare + Pads(n);
    assert bare[|bare| - 1] == text[|text| - n - 1];
    StripPadsOf(bare, n);
  }

  /** Four bytes hold a number below 65536, most significant byte first. */
  predicate Holds(bytes: seq<byte>, at: nat, n: nat)
    requires at + 4 <= |bytes|
  {
    bytes[at..at + 4] == [0, 0, n / 256, n % 256]
  }

  /**
   * A PNG of `w` by `h` pixels, both at most 512, in at most 400 kilobytes: the signature, the tag in
   * the low seven bits of its bytes, and the two dimensions. Everything else is free.
   */
  predicate IsAvatar(bytes: seq<byte>, w: nat, h: nat) {
    && 24 <= |bytes| <= 409600
    && bytes[..8] == [137, 80, 78, 71, 13, 10, 26, 10]
    && bytes[12] % 128 == 'I' as int && bytes[13] % 128 == 'H' as int
    && bytes[14] % 128 == 'D' as int && bytes[15] % 128 == 'R' as int
    && 1 <= w <= 512 && Holds(bytes, 16, w) && 1 <= h <= 512 && Holds(bytes, 20, h)
  }

  lemma NumberExactly(bytes: seq<byte>, at: nat, n: nat)
    requires at + 4 <= |bytes| && n <= 512
    ensures UInt32BE(bytes, at) == n <==> Holds(bytes, at, n)
  {
    var s := bytes[at..at + 4];
    assert s[0] == bytes[at] && s[1] == bytes[at + 1] && s[2] == bytes[at + 2] && s[3] == bytes[at + 3];
    if UInt32BE(bytes, at) == n {
      assert s == [0, 0, n / 256, n % 256];
    }
  }

  lemma TagExactly(bytes: seq<byte>)
    requires |bytes| >= 16
    ensures LowSeven(bytes[12..16]) == IHDR <==>
              bytes[12] % 128 == 'I' as int && bytes[13] % 128 == 'H' as int
              && bytes[14] % 128 == 'D' as int && bytes[15] % 128 == 'R' as int
  {
    var tag := LowSeven(bytes[12..16]);
    assert tag == [bytes[12] % 128, bytes[13] % 128, bytes[14] % 128, bytes[15] % 128];
  }

  /** The header checks find an image exactly if it is one, with its dimensions. */
  lemma HeaderExactly(bytes: seq<byte>, w: nat, h: nat)
    ensures CheckHeader(bytes) == Some(Avatar(bytes, w, h)) <==> IsAvatar(bytes, w, h)
    ensures CheckHeader(bytes).Some? ==> CheckHeader(bytes).value.bytes == bytes
  {
    if |bytes| >= 24 {
      TagExactly(bytes);
      if w <= 512 && h <= 512 {
        NumberExactly(bytes, 16, w);
        NumberExactly(bytes, 20, h);
      }
    }
  }

  /** What is accepted is the one encoding of an image, with up to two equals signs. */
  lemma AcceptedIsCanonical(base64: string, bytes: seq<byte>, w: nat, h: nat)
    requires ValidateAvatarImage(base64) == Some(Avatar(bytes, w, h))
    ensures IsAvatar(bytes, w, h) && exists n :: Padded(base64, EncodeBare(bytes), n)
  {
    var n := if Transport(base64, 0) then 0 else if Transport(base64, 1) then 1 else 2;
    HeaderExactly(Decode(base64), w, h);
    TransportStripped(base64, n);
    EncodeStripped(bytes, 0);
    assert Padded(base64, EncodeBare(bytes), n);
  }

  lemma EncodedIsTransport(bytes: seq<byte>, n: nat)
    requires n <= 2 && bytes != []
    ensures Transport(EncodeBare(bytes) + Pads(n), n)
  {
    var text := EncodeBare(bytes) + Pads(n);
    EncodeBareEnds(bytes);
    assert |EncodeBare(bytes)| == (4 * |bytes| + 2) / 3;
    assert text[|text| - n..] == Pads(n);
    assert forall i :: 0 <= i < |text| - n ==> text[i] == EncodeBare(bytes)[i];
  }

  /** Every image is accepted, padded, half padded or not padded at all. */
  lemma CanonicalIsAccepted(bytes: seq<byte>, w: nat, h: nat, n: nat)
    requires IsAvatar(bytes, w, h) && n <= 2
    ensures ValidateAvatarImage(EncodeBare(bytes) + Pads(n)) == Some(Avatar(bytes, w, h))
  {
    var text := EncodeBare(bytes) + Pads(n);
    EncodedIsTransport(bytes, n);
    EncodeStripped(bytes, n);
    DecodeEncode(bytes, n);
    HeaderExactly(bytes, w, h);
    assert 0 < |text| <= MAX_TRANSPORT;
  }

  /** A text is accepted as an image exactly if it encodes one, up to two equals signs. */
  lemma AcceptedExactly(base64: string, bytes: seq<byte>, w: nat, h: nat)
    ensures ValidateAvatarImage(base64) == Some(Avatar(bytes, w, h)) <==>
              IsAvatar(bytes, w, h) && exists n :: Padded(base64, EncodeBare(bytes), n)
  {
    if ValidateAvatarImage(base64) == Some(Avatar(bytes, w, h)) {
      AcceptedIsCanonical(base64, bytes, w, h);
    } else if n :| IsAvatar(bytes, w, h) && Padded(base64, EncodeBare(bytes), n) {
      CanonicalIsAccepted(bytes, w, h, n);
      assert false;
    }
  }

  /** Two accepted texts have the same bytes exactly if they differ in trailing equals signs at most. */
  lemma SameBytesSameText(a: string, b: string)
    requires ValidateAvatarImage(a).Some? && ValidateAvatarImage(b).Some?
    ensures ValidateAvatarImage(a).value.bytes == ValidateAvatarImage(b).value.bytes <==> StripPads(a) == StripPads(b)
  {
    AcceptedIsStripped(a);
    AcceptedIsStripped(b);
    if StripPads(a) == StripPads(b) {
      EncodeBareInjective(ValidateAvatarImage(a).value.bytes, ValidateAvatarImage(b).value.bytes);
    }
  }

  lemma AcceptedIsStripped(base64: string)
    requires ValidateAvatarImage(base64).Some?
    ensures StripPads(base64) == EncodeBare(ValidateAvatarImage(base64).value.bytes)
  {
    EncodeStripped(Decode(base64), 0);
  }

  /** Nothing that passes the transport bound can decode to much more than the size limit. */
  lemma DecodeIsBounded(base64: string)
    requires |base64| <= MAX_TRANSPORT
    ensures |Decode(base64)| <= MAX_AVATAR_BYTES + 96
  {
    DecodedLength(base64);
  }

  /**
   * The tag is compared without its high bits: an image whose tag bytes are `IHDR` plus 128 is
   * accepted just like the image with the tag itself.
   */
  lemma TagHighBitsAreIgnored(bytes: seq<byte>, i: nat)
    requires CheckHeader(bytes).Some? && 12 <= i < 16 && bytes[i] < 128
    ensures var other := bytes[i := bytes[i] + 128];
            CheckHeader(other) == Some(CheckHeader(bytes).value.(bytes := other))
  {
    var other := bytes[i := bytes[i] + 128];
    assert LowSeven(other[12..16]) == LowSeven(bytes[12..16]);
    assert other[..8] == bytes[..8];
  }
}
