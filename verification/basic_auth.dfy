/** The password of a Basic authorization header (section 2 of RFC 7617). */
module BasicAuth {
  import opened Text
  import Base64
  import Utf8

  /** `decoded.indexOf(":")`, or the length if there is no colon. */
  function FirstColon(s: string): (i: nat)
    ensures i <= |s| && Free(s[..i], ':') && (i < |s| ==> s[i] == ':')
  {
    if s == "" || s[0] == ':' then 0 else 1 + FirstColon(s[1..])
  }

  function PresentedSecret(authorization: Option<string>): Option<string> {
    if authorization.None? then None
    else
      var parts := Split(authorization.value, ' ');
      if LowerAsciiText(parts[0]) != "basic" || |parts| < 2 then None
      else
        AfterColon(Utf8.Decode(Base64.Decode(parts[1])))
  }

  function AfterColon(decoded: string): Option<string> {
    var i := FirstColon(decoded);
    if i == |decoded| then None else Some(decoded[i + 1..])
  }

  /** The header a client sends (section 2 of RFC 7617). */
  function Header(scheme: string, user: string, password: string): string {
    scheme + " " + Base64.Encode(Utf8.Encode(user + ":" + password))
  }

  lemma FirstColonIs(user: string, password: string)
    requires Free(user, ':')
    ensures FirstColon(user + ":" + password) == |user|
  {
    var s := user + ":" + password;
    assert s[|user|] == ':';
    assert forall k :: 0 <= k < |user| ==> s[k] == user[k];
    assert forall k :: 0 <= k < FirstColon(s) ==> s[k] == s[..FirstColon(s)][k];
  }

  lemma EncodingHasNoSpace(b: seq<byte>)
    ensures ' ' !in Base64.Encode(b)
  {
    Base64.LettersAreLetters(Base64.Regroup(b), false);
  }

  /**
   * Whatever the password is, colons included, and in any case of the scheme, the header gives
   * exactly the password back.
   */
  lemma PasswordRoundTrip(scheme: string, user: string, password: string)
    requires LowerAsciiText(scheme) == "basic" && Free(user, ':')
    ensures PresentedSecret(Some(Header(scheme, user, password))) == Some(password)
  {
    var plain := user + ":" + password;
    var encoded := Base64.Encode(Utf8.Encode(plain));
    SchemeHasNoSpace(scheme);
    EncodingHasNoSpace(Utf8.Encode(plain));
    SplitAtSeparator(scheme, encoded, ' ');
    SplitOfPiece(encoded, ' ');
    Base64.DecodeEncode(Utf8.Encode(plain), 0);
    Utf8.DecodeEncode(plain);
    FirstColonIs(user, password);
  }

  lemma SchemeHasNoSpace(scheme: string)
    requires LowerAsciiText(scheme) == "basic"
    ensures ' ' !in scheme
  {
    forall i | 0 <= i < |scheme| ensures scheme[i] != ' ' {
      assert LowerAsciiText(scheme)[i] == LowerAscii(scheme[i]);
    }
  }

  /** `decoded` is a user name without colons, a colon, and the secret. */
  predicate Credentials(decoded: string, user: string, secret: string) {
    Free(user, ':') && decoded == user + ":" + secret
  }

  ghost predicate HoldsSecret(decoded: string, secret: string) { exists user :: Credentials(decoded, user, secret) }

  /**
   * A secret comes out exactly if the header's first word is the scheme and its second word decodes
   * to a user name without colons, a colon and the secret.
   */
  lemma PresentedExactly(authorization: string, secret: string)
    ensures PresentedSecret(Some(authorization)) == Some(secret) <==>
              var parts := Split(authorization, ' ');
              |parts| >= 2 && LowerAsciiText(parts[0]) == "basic"
              && HoldsSecret(Utf8.Decode(Base64.Decode(parts[1])), secret)
    ensures PresentedSecret(None) == None
  {
    var parts := Split(authorization, ' ');
    if |parts| >= 2 {
      AfterColonExactly(Utf8.Decode(Base64.Decode(parts[1])), secret);
    }
  }

  lemma AfterColonExactly(decoded: string, secret: string)
    ensures AfterColon(decoded) == Some(secret) <==> HoldsSecret(decoded, secret)
  {
    var i := FirstColon(decoded);
    if AfterColon(decoded) == Some(secret) {
      assert decoded == decoded[..i] + ":" + secret;
      assert Credentials(decoded, decoded[..i], secret);
    }
    forall user | Credentials(decoded, user, secret) ensures AfterColon(decoded) == Some(secret) {
      FirstColonIs(user, secret);
      assert decoded[|user| + 1..] == secret;
    }
  }
}
