/**
 * The scrubber's character classes and key names by their members, and what its two replacements do to
 * the first credential of a text.
 */
module ScrubTables {
  import opened Text
  import opened Replace
  import opened Scrub

  // ---- Character classes ----

  /** The white space and the line ends of ECMAScript, by code point. */
  lemma SpacesAre(c: char)
    ensures IsSpace(c) <==> c as int in {0x9, 0xA, 0xB, 0xC, 0xD, 0x20, 0xA0, 0x1680, 0x2000, 0x2001, 0x2002, 0x2003,
                                         0x2004, 0x2005, 0x2006, 0x2007, 0x2008, 0x2009, 0x200A, 0x2028, 0x2029,
                                         0x202F, 0x205F, 0x3000, 0xFEFF}
  {}

  lemma LettersAre(c: char)
    ensures IsLetter(c) <==> c in UPPER || c in LOWER
  {
    if 'A' <= c <= 'Z' {
      UpperAt(c as int - 'A' as int);
      assert UPPER[c as int - 'A' as int] == c;
    }
    if 'a' <= c <= 'z' {
      LowerAt(c as int - 'a' as int);
      assert LOWER[c as int - 'a' as int] == c;
    }
    if i :| 0 <= i < 26 && (UPPER[i] == c || LOWER[i] == c) {
      UpperAt(i);
      LowerAt(i);
    }
  }

  /** The classes of the two expressions: letters are taken in both cases, `\s` is white space. */
  lemma ClassesAre(c: char)
    ensures SchemeChar(c) <==> c in UPPER || c in LOWER || c in DIGITS || c in {'+', '.', '-'}
    ensures NameChar(c) <==> c in UPPER || c in LOWER || c in {'_', '-'}
    ensures UserChar(c) <==> !IsSpace(c) && c !in {':', '/', '@'}
    ensures PassChar(c) <==> !IsSpace(c) && c != '@'
    ensures ValueChar(c) <==> !IsSpace(c) && c != '&'
    ensures Opens(c) <==> c in {'?', '&'}
  {
    LettersAre(c);
    IsDigitIs(c);
  }

  // ---- Secret keys ----

  /**
   * What a character counts for in a key: a small letter or a digit for itself, a capital for its small
   * letter, the Kelvin sign and the capital I with a dot for the letters they lower-case to, others for
   * nothing.
   */
  lemma UnitsCountFor(i: nat, c: char)
    ensures i < 26 ==> NormalizeUnit(LOWER[i]) == [LOWER[i]] == NormalizeUnit(UPPER[i])
    ensures i < 10 ==> NormalizeUnit(DIGITS[i]) == [DIGITS[i]]
    ensures NormalizeUnit('\U{212A}') == "k" && NormalizeUnit('\U{0130}') == "i"
    ensures c !in UPPER && c !in LOWER && c !in DIGITS && c != '\U{212A}' && c != '\U{0130}' ==> NormalizeUnit(c) == ""
  {
    if i < 26 {
      UpperAt(i);
      LowerAt(i);
    }
    if i < 10 {
      DigitAt(i);
    }
    LettersAre(c);
    IsDigitIs(c);
  }

  /** A key is what its characters count for, one after the other. */
  lemma KeysAreReadByUnits(a: string, c: char, b: string)
    ensures NormalizeKey("") == "" && NormalizeKey([c]) == NormalizeUnit(c)
    ensures NormalizeKey(a + [c] + b) == NormalizeKey(a) + NormalizeUnit(c) + NormalizeKey(b)
  {
    assert [c][1..] == "" && NormalizeUnit(c) + "" == NormalizeUnit(c);
    NormalizeConcat(a + [c], b);
    NormalizeConcat(a, [c]);
  }

  ghost predicate EndsIn(s: string, suffix: string) { exists before: string :: s == before + suffix }

  /** A key is secret exactly if it reads as one of the listed keys, or ends in a listed suffix. */
  lemma SecretExactly(key: string)
    ensures IsSecretKey(key) <==>
              NormalizeKey(key) in SECRET_KEYS
              || exists i :: 0 <= i < |SECRET_SUFFIXES| && EndsIn(NormalizeKey(key), SECRET_SUFFIXES[i])
  {
    var s := NormalizeKey(key);
    forall i | 0 <= i < |SECRET_SUFFIXES| ensures EndsIn(s, SECRET_SUFFIXES[i]) <==> EndsWith(s, SECRET_SUFFIXES[i]) {
      EndsInExactly(s, SECRET_SUFFIXES[i]);
    }
  }

  lemma EndsInExactly(s: string, suffix: string)
    ensures EndsIn(s, suffix) <==> EndsWith(s, suffix)
  {
    if EndsWith(s, suffix) {
      assert s == s[..|s| - |suffix|] + suffix;
    }
    if before :| s == before + suffix {
      assert s[|s| - |suffix|..] == suffix;
    }
  }

  // ---- The first credential of a text ----

  /** No URL credential starts in the first `k` characters. */
  ghost predicate NoUrlIn(t: string, k: nat) {
    forall p: nat, a: nat, b: nat, e: nat :: p < k && p <= |t| ==> !UrlAt(t[p..], a, b, e)
  }

  ghost predicate NoQueryIn(t: string, k: nat) {
    forall p: nat, e: nat, j: nat :: p < k && p <= |t| ==> !QueryAt(ListedName, t[p..], e, j)
  }

  lemma UrlParts(h: string, v: string, r: string, a: nat)
    requires h != "" && UrlAt(h + v + r, a, |h| - 1, |h| + |v|)
    ensures Credential(UrlMatch, h, v, r)
  {
    UrlMatchComplete(h + v + r, a, |h| - 1, |h| + |v|);
  }

  /**
   * The first `scheme://user:password@` of a text gets the marker for its password; everything before it
   * is copied, and the replacement goes on behind the password.
   */
  lemma FirstUrlMarked(x: string, h: string, v: string, r: string, a: nat)
    requires h != "" && UrlAt(h + v + r, a, |h| - 1, |h| + |v|) && NoUrlIn(x + (h + v + r), |x|)
    ensures ScrubUrls(x + (h + v + r)) == x + (h + "[redacted]" + ScrubUrls(r))
  {
    UrlStable();
    UrlParts(h, v, r, a);
    NoUrlBefore(x + (h + v + r), |x|);
    FirstMarked(UrlMatch, x, h, v, r);
  }

  lemma NoUrlBefore(t: string, k: nat)
    requires k <= |t| && NoUrlIn(t, k)
    ensures forall p :: 0 <= p < k ==> NoneAt(UrlMatch, t, p)
  {
    forall p: nat | p < k ensures NoneAt(UrlMatch, t, p) {
      var m := UrlMatch(t[p..]);
      assert m.Some? ==> UrlAt(t[p..], SchemeEnd(t[p..]), m.value.0 - 1, m.value.1);
    }
  }

  lemma QueryParts(h: string, v: string, r: string)
    requires h != "" && QueryAt(ListedName, h + v + r, |h| - 1, |h| + |v|)
    ensures Credential(QueryMatch, h, v, r)
  {
    QueryMatchReads();
    QueryMatchComplete(ListedName, h + v + r, |h| - 1, |h| + |v|);
  }

  lemma NoQueryBefore(t: string, k: nat)
    requires k <= |t| && NoQueryIn(t, k)
    ensures forall p :: 0 <= p < k ==> NoneAt(QueryMatch, t, p)
  {
    forall p: nat | p < k ensures NoneAt(QueryMatch, t, p) {
      var m := QueryMatch(t[p..]);
      assert m.Some? ==> QueryAt(ListedName, t[p..], m.value.0 - 1, m.value.1);
    }
  }

  /** The same of the first `?name=value` and the second replacement. */
  lemma FirstQueryMarked(x: string, h: string, v: string, r: string)
    requires h != "" && QueryAt(ListedName, h + v + r, |h| - 1, |h| + |v|) && NoQueryIn(x + (h + v + r), |x|)
    ensures ScrubQueries(x + (h + v + r)) == x + (h + "[redacted]" + ScrubQueries(r))
  {
    QueryMatchReads();
    QueryStable(QueryMatch, ListedName);
    QueryParts(h, v, r);
    NoQueryBefore(x + (h + v + r), |x|);
    FirstMarked(QueryMatch, x, h, v, r);
  }

  lemma FirstMarked(m: Matcher, x: string, h: string, v: string, r: string)
    requires InBounds(m) && Credential(m, h, v, r) && forall p :: 0 <= p < |x| ==> NoneAt(m, x + (h + v + r), p)
    ensures ReplaceAll(m, REDACTED, x + (h + v + r)) == x + (h + "[redacted]" + ReplaceAll(m, REDACTED, r))
  {
    var s := h + v + r;
    var t := x + s;
    ReplaceCopies(m, REDACTED, t, |x|);
    assert t[..|x|] == x && t[|x|..] == s;
    ReplaceAtMatch(m, REDACTED, h, v, r);
  }

  /** Every listed name counts in either case of its letters, and no other name does. */
  lemma ListedNamesAre(s: string)
    ensures ListedName(LowerAsciiText(s)) <==>
              LowerAsciiText(s) in {"token", "password", "secret", "signature", "sig", "apikey", "api_key",
                                    "x-amz-signature", "access_token"}
  {
    assert forall i :: 0 <= i < 9 ==> QUERY_NAMES[i] in QUERY_NAMES;
  }
}
