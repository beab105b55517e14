/** Sealed secrets: `v1.<iv>.<ciphertext>.<tag>` around an authenticated cipher. */
module SecretBox {
  import opened Text
  import opened Base64
  import Utf16
  import Utf8

  const KEY_BYTES := 32
  const IV_BYTES := 12
  const TAG_BYTES := 16
  const FORMAT_VERSION := "v1"

  /** An authenticated cipher, as a pair of functions. `decrypt` gives nothing back if the tag does not match. */
  datatype Cipher = Cipher(
    encrypt: (seq<byte>, seq<byte>, seq<byte>) -> (seq<byte>, seq<byte>),
    decrypt: (seq<byte>, seq<byte>, seq<byte>, seq<byte>) -> Option<seq<byte>>)

  /** What is used of the cipher: tags have their length, and decrypting undoes encrypting. */
  ghost predicate Correct(cipher: Cipher) {
    forall key, iv, plain ::
      var (text, tag) := cipher.encrypt(key, iv, plain);
      |tag| == TAG_BYTES && cipher.decrypt(key, iv, text, tag) == Some(plain)
  }

  datatype Box = Box(key: seq<byte>, keyVersion: string)

  datatype BoxError = WrongKeyLength(length: nat) | Malformed | DoesNotOpen
  datatype Result<+T> = Ok(value: T) | Err(error: BoxError)

  function CreateSecretBox(keyBase64: string, keyVersion: string): Result<Box> {
    var key := Decode(keyBase64);
    if |key| != KEY_BYTES then Err(WrongKeyLength(|key|)) else Ok(Box(key, keyVersion))
  }

  /** `random` is the key material drawn. */
  function GenerateSecretBoxKey(random: seq<byte>): string { Encode(random) }

  function Seal(cipher: Cipher, box: Box, iv: seq<byte>, plain: string): string {
    var (text, tag) := cipher.encrypt(box.key, iv, Utf8.Encode(plain));
    Join([FORMAT_VERSION, EncodeUrl(iv), EncodeUrl(text), EncodeUrl(tag)], '.')
  }

  function Open(cipher: Cipher, box: Box, sealed: string): Result<string> {
    var parts := Split(sealed, '.');
    if |parts| != 4 || parts[0] != FORMAT_VERSION then Err(Malformed)
    else
      var iv, text, tag := Decode(parts[1]), Decode(parts[2]), Decode(parts[3]);
      if |iv| != IV_BYTES || |tag| != TAG_BYTES then Err(Malformed)
      else match cipher.decrypt(box.key, iv, text, tag)
        case Some(plain) => Ok(Utf8.Decode(plain))
        case None => Err(DoesNotOpen)
  }

  lemma EncodingHasNoDot(b: seq<byte>)
    ensures '.' !in EncodeUrl(b)
  {
    LettersAreLetters(Regroup(b), true);
  }

  /** A sealed secret splits into exactly the four parts it was joined from. */
  lemma SealedParts(cipher: Cipher, box: Box, iv: seq<byte>, plain: string)
    ensures var (text, tag) := cipher.encrypt(box.key, iv, Utf8.Encode(plain));
            Split(Seal(cipher, box, iv, plain), '.') == [FORMAT_VERSION, EncodeUrl(iv), EncodeUrl(text), EncodeUrl(tag)]
  {
    var (text, tag) := cipher.encrypt(box.key, iv, Utf8.Encode(plain));
    EncodingHasNoDot(iv);
    EncodingHasNoDot(text);
    EncodingHasNoDot(tag);
    SplitJoin([FORMAT_VERSION, EncodeUrl(iv), EncodeUrl(text), EncodeUrl(tag)], '.');
  }

  /** Opening undoes sealing, for every plaintext, the empty one included, and every 12-byte IV. */
  lemma OpenSeal(cipher: Cipher, box: Box, iv: seq<byte>, plain: string)
    requires Correct(cipher) && |iv| == IV_BYTES
    ensures Open(cipher, box, Seal(cipher, box, iv, plain)) == Ok(plain)
  {
    var (text, tag) := cipher.encrypt(box.key, iv, Utf8.Encode(plain));
    Utf8.DecodeEncode(plain);
    SealedParts(cipher, box, iv, plain);
    DecodeEncode(iv, 0);
    DecodeEncode(text, 0);
    DecodeEncode(tag, 0);
  }

  /**
   * With JavaScript strings for plaintexts: opening what was sealed always succeeds, and gives the same
   * string back exactly if no surrogate in it is unpaired.
   */
  lemma OpenSealExactly(cipher: Cipher, box: Box, iv: seq<byte>, plain: seq<Utf16.Unit>)
    requires Correct(cipher) && |iv| == IV_BYTES
    ensures var back := Open(cipher, box, Seal(cipher, box, iv, Utf16.Chars(plain)));
            back.Ok? && (Utf16.Units(back.value) == plain <==> Utf16.Paired(plain))
  {
    OpenSeal(cipher, box, iv, Utf16.Chars(plain));
    Utf16.UnitsOfCharsExactly(plain);
  }

  /** A generated key is accepted, and the box holds exactly the bytes that were drawn. */
  lemma GeneratedKeyIsAccepted(random: seq<byte>, keyVersion: string)
    ensures CreateSecretBox(GenerateSecretBoxKey(random), keyVersion)
         == if |random| == KEY_BYTES then Ok(Box(random, keyVersion)) else Err(WrongKeyLength(|random|))
  {
    DecodeEncode(random, 0);
  }

  /** The texts that a box may open to `plain`: the parts, their lengths and the tag are all there is to check. */
  predicate Opens(cipher: Cipher, box: Box, iv: string, text: string, tag: string, plain: string) {
    '.' !in iv && '.' !in text && '.' !in tag
    && |Decode(iv)| == IV_BYTES && |Decode(tag)| == TAG_BYTES
    && cipher.decrypt(box.key, Decode(iv), Decode(text), Decode(tag)).Some?
    && Utf8.Decode(cipher.decrypt(box.key, Decode(iv), Decode(text), Decode(tag)).value) == plain
  }

  lemma OpensExactly(cipher: Cipher, box: Box, sealed: string, plain: string)
    ensures Open(cipher, box, sealed) == Ok(plain) <==>
              exists iv, text, tag ::
                Opens(cipher, box, iv, text, tag, plain) && sealed == Join([FORMAT_VERSION, iv, text, tag], '.')
  {
    var parts := Split(sealed, '.');
    if Open(cipher, box, sealed) == Ok(plain) {
      JoinSplit(sealed, '.');
      assert parts == [FORMAT_VERSION, parts[1], parts[2], parts[3]];
      assert Opens(cipher, box, parts[1], parts[2], parts[3], plain);
    }
    forall iv, text, tag | Opens(cipher, box, iv, text, tag, plain)
        && sealed == Join([FORMAT_VERSION, iv, text, tag], '.')
      ensures Open(cipher, box, sealed) == Ok(plain)
    {
      SplitJoin([FORMAT_VERSION, iv, text, tag], '.');
    }
  }

  /** Four parts of the right lengths, which is all that is checked before the cipher. */
  predicate WellFormed(sealed: string, iv: string, text: string, tag: string) {
    '.' !in iv && '.' !in text && '.' !in tag && sealed == Join(["v1", iv, text, tag], '.')
    && |Decode(iv)| == 12 && |Decode(tag)| == 16
  }

  lemma WellFormedParts(sealed: string, iv: string, text: string, tag: string)
    requires WellFormed(sealed, iv, text, tag)
    ensures Split(sealed, '.') == ["v1", iv, text, tag]
  {
    SplitJoin(["v1", iv, text, tag], '.');
  }

  /** A text that does not open is malformed, or the cipher refuses it; which of the two is told. */
  lemma RefusedExactly(cipher: Cipher, box: Box, sealed: string)
    ensures Open(cipher, box, sealed) == Err(Malformed) <==>
              forall iv, text, tag :: !WellFormed(sealed, iv, text, tag)
    ensures Open(cipher, box, sealed) == Err(DoesNotOpen) <==>
              exists iv, text, tag :: WellFormed(sealed, iv, text, tag)
                && cipher.decrypt(box.key, Decode(iv), Decode(text), Decode(tag)).None?
  {
    var parts := Split(sealed, '.');
    forall iv, text, tag | WellFormed(sealed, iv, text, tag) ensures parts == ["v1", iv, text, tag] {
      WellFormedParts(sealed, iv, text, tag);
    }
    if Open(cipher, box, sealed) != Err(Malformed) {
      JoinSplit(sealed, '.');
      assert parts == ["v1", parts[1], parts[2], parts[3]];
      assert WellFormed(sealed, parts[1], parts[2], parts[3]);
    }
  }
}
