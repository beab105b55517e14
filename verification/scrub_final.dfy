/**
 * URL passwords in the final text, over whole texts: which conditions on the query values, in the
 * text between the two replacements or in the text before them, keep every URL password marked.
 */
module ScrubFinal {
  import opened Text
  import opened Replace
  import opened Scrub
  import opened ScrubExact
  import opened ScrubUrlPasswords

  // ---- Values that are easy to tell ----

  predicate SchemeAt(v: string, k: nat) {
    k + 2 < |v| && v[k] == ':' && v[k + 1] == '/' && v[k + 2] == '/'
  }

  /** There is a `://` in the text. */
  predicate HasScheme(v: string) { exists k :: 0 <= k < |v| && SchemeAt(v, k) }

  lemma NoSchemeNoUrl(v: string, q: nat)
    requires !HasScheme(v) && q <= |v|
    ensures UrlMatch(v[q..]).None? && !Unfinished(v[q..])
  {
    var t := v[q..];
    var a := SchemeEnd(t);
    if a + 3 <= |t| {
      assert !SchemeAt(v, q + a);
      assert t[a] == v[q + a] && t[a + 1] == v[q + a + 1] && t[a + 2] == v[q + a + 2];
    }
  }

  lemma NoSchemeSettled(marker: string, v: string)
    requires !HasScheme(v)
    ensures Settled(marker, v)
  {
    forall q | 0 <= q < |v| ensures SettledAt(marker, v, q) { NoSchemeNoUrl(v, q); }
  }

  lemma PlainDoesNotBlock(marker: string, v: string)
    requires Plain(v)
    ensures !Blocks(marker, v)
  {
    var f := UserEnd(v);
    assert forall k :: 0 <= k < |v| ==> ValueChar(v[k]);
  }

  /**
   * A value without `://` uncovers a password if and only if it blocks a user name, and one without a
   * colon if and only if it is not plain.
   */
  lemma WithoutScheme(marker: string, v: string)
    requires Bracketed(marker) && Plain(marker) && QueryValue(v) && !HasScheme(v)
    ensures NeverUncovers(marker, v) <==> !Blocks(marker, v)
    ensures (forall k :: 0 <= k < |v| ==> v[k] != ':') ==> (NeverUncovers(marker, v) <==> Plain(v))
  {
    UncoversExactly(marker, v);
    NoSchemeSettled(marker, v);
    if Plain(v) {
      PlainDoesNotBlock(marker, v);
    } else if forall k :: 0 <= k < |v| ==> v[k] != ':' {
      var k :| 0 <= k < |v| && (v[k] == '@' || v[k] == '/');
      assert !UserChar(v[k]);
    }
  }

  /** A value with neither an `@` nor a slash uncovers no password, colons or not. */
  lemma WithoutAtAndSlash(marker: string, v: string)
    requires Bracketed(marker) && Plain(marker) && QueryValue(v)
             && forall k :: 0 <= k < |v| ==> v[k] != '@' && v[k] != '/'
    ensures NeverUncovers(marker, v)
  {
    UncoversExactly(marker, v);
    var f := UserEnd(v);
    assert forall k :: 0 <= k < |v| ==> ValueChar(v[k]);
    assert RunEnd(v, if f < |v| then f + 1 else f, PassChar) == |v|;
  }

  // ---- The text between the two replacements ----

  predicate HarmlessFrom(marker: string, s: string, p: nat)
    requires p <= |s|
  {
    QueryMatch(s[p..]).Some? ==> !Uncovers(marker, s[p..][QueryMatch(s[p..]).value.0..QueryMatch(s[p..]).value.1])
  }

  /** No query value uncovers a URL password. */
  predicate HarmlessQueries(marker: string, s: string) { forall p :: 0 <= p <= |s| ==> HarmlessFrom(marker, s, p) }

  lemma HarmlessSuffix(marker: string, s: string, n: nat)
    requires n <= |s| && HarmlessQueries(marker, s)
    ensures HarmlessQueries(marker, s[n..])
  {
    forall p | 0 <= p <= |s[n..]| ensures HarmlessFrom(marker, s[n..], p) {
      DropDrop(s, n, p);
      assert HarmlessFrom(marker, s, n + p);
    }
  }

  lemma {:induction false} QueriesKeepUrlsClean(marker: string, y: string, s: string)
    requires IsMarker(marker) && Plain(marker) && HarmlessQueries(marker, s) && Clean(UrlMatch, marker, y + s)
    ensures Clean(UrlMatch, marker, y + QueriesReplaced(marker, s))
    decreases |s|
  {
    if s == "" {
    } else if QueryMatch(s).None? {
      QueriesReplacedStep(marker, s);
      FirstAndRest(s);
      Associative(y, [s[0]], s[1..]);
      HarmlessSuffix(marker, s, 1);
      QueriesKeepUrlsClean(marker, y + [s[0]], s[1..]);
      Associative(y, [s[0]], QueriesReplaced(marker, s[1..]));
    } else {
      QueriesKeepUrlsCleanAtMatch(marker, y, s);
    }
  }

  lemma {:induction false} QueriesKeepUrlsCleanAtMatch(marker: string, y: string, s: string)
    requires IsMarker(marker) && Plain(marker) && HarmlessQueries(marker, s) && Clean(UrlMatch, marker, y + s)
    requires s != "" && QueryMatch(s).Some?
    ensures Clean(UrlMatch, marker, y + QueriesReplaced(marker, s))
    decreases |s|, 0
  {
    var (i, j) := QueryMatch(s).value;
    var h, v, r := s[..i], s[i..j], s[j..];
    assert HarmlessFrom(marker, s, 0) && s[0..] == s;
    FourParts(y, s, i, j);
    QueryMatchReads();
    QueryStable(QueryMatch, ListedName);
    MatchIsCredential(QueryMatch, s);
    forall p: nat | p <= |y + h + marker + r| ensures CleanFrom(UrlMatch, marker, y + h + marker + r, p) {
      SafeAt(marker, y, h, v, r, p);
    }
    HarmlessSuffix(marker, s, j);
    QueriesKeepUrlsClean(marker, y + h + marker, r);
    QueriesReplacedStep(marker, s);
    RegroupedFour(y, h, marker, QueriesReplaced(marker, r));
  }

  lemma RegroupedFour(y: string, h: string, m: string, z: string)
    ensures y + (h + m + z) == y + h + m + z
  {}

  lemma MarkerIsPlain()
    ensures Plain(REDACTED)
  {}

  lemma FirstIsClean(marker: string, text: string)
    requires IsMarker(marker)
    ensures Clean(UrlMatch, marker, UrlsReplaced(marker, text))
  {
    UrlStable();
    UrlCleanInside(marker);
    forall p: nat | p <= |UrlsReplaced(marker, text)|
      ensures CleanFrom(UrlMatch, marker, UrlsReplaced(marker, text), p)
    {
      ReplaceClean(UrlMatch, Password, marker, text, p);
    }
  }

  lemma HarmlessIsClean(marker: string, text: string)
    requires IsMarker(marker) && Plain(marker) && HarmlessQueries(marker, UrlsReplaced(marker, text))
    ensures Clean(UrlMatch, marker, Out(marker, text))
  {
    var s := UrlsReplaced(marker, text);
    FirstIsClean(marker, text);
    NothingAdded(s);
    NothingAdded(QueriesReplaced(marker, s));
    QueriesKeepUrlsClean(marker, "", s);
  }

  /**
   * If no query value that the first replacement leaves uncovers a URL password, then every
   * URL credential of the final text, at any position, has the marker for a password.
   */
  lemma NoFinalUrlPasswordSurvives(text: string, p: nat, a: nat, b: nat, e: nat)
    requires HarmlessQueries(REDACTED, ScrubUrls(text))
    requires p <= |ScrubSecretsFromText(text)| && UrlAt(ScrubSecretsFromText(text)[p..], a, b, e)
    ensures ScrubSecretsFromText(text)[p..][b + 1..e] == REDACTED
  {
    RedactedIsMarker();
    MarkerIsPlain();
    HarmlessIsClean(REDACTED, text);
    OutIsScrubbed(text);
    assert CleanFrom(UrlMatch, REDACTED, ScrubSecretsFromText(text), p);
    CleanPassword(REDACTED, ScrubSecretsFromText(text)[p..], a, b, e);
  }

  // ---- The text before the two replacements ----

  predicate PlainQueryFrom(s: string, p: nat)
    requires p <= |s|
  {
    QueryMatch(s[p..]).Some? ==> Plain(s[p..][QueryMatch(s[p..]).value.0..QueryMatch(s[p..]).value.1])
  }

  /** No query value has an `@`, a colon or a slash. */
  predicate PlainQueries(s: string) { forall p :: 0 <= p <= |s| ==> PlainQueryFrom(s, p) }

  /** Two texts that agree up to a colon at `c`. */
  predicate AlikeToColon(t: string, u: string, c: nat) {
    c < |t| && c < |u| && t[c] == ':' && forall k :: 0 <= k <= c ==> t[k] == u[k]
  }

  lemma NameBeforeColon(t: string, u: string, c: nat, e: nat, j: nat)
    requires AlikeToColon(t, u, c) && QueryAt(ListedName, u, e, j)
    ensures e < c && t[..e + 1] == u[..e + 1]
  {
    QueryMatchReads();
    ListedNameIsName(ListedName, u, e);
    assert !NameChar(u[c]);
  }

  lemma ValueBeforeColon(t: string, u: string, c: nat, e: nat, j: nat)
    requires AlikeToColon(t, u, c) && QueryAt(ListedName, u, e, j) && j <= c && PlainQueryFrom(t, 0)
    ensures Plain(u[e + 1..j])
  {
    NameBeforeColon(t, u, c, e, j);
    QueryMatchReads();
    QuerySame(ListedName, u, t, e, j, j);
    assert t[0..] == t && t[e + 1..j] == u[e + 1..j];
  }

  lemma ValueOverColon(t: string, u: string, c: nat, e: nat, j: nat) returns (j': nat)
    requires AlikeToColon(t, u, c) && QueryAt(ListedName, u, e, j) && c < j
    ensures e < c < j' && QueryMatch(t) == Some((e + 1, j'))
  {
    NameBeforeColon(t, u, c, e, j);
    j' := RunEnd(t, e + 1, ValueChar);
    assert j' > c;
    QueryMatchReads();
    QuerySame(ListedName, u, t, e, j, j');
  }

  lemma NotPlain(v: string, k: nat)
    requires k < |v| && v[k] == ':'
    ensures !Plain(v)
  {}

  lemma ColonInValue(t: string, u: string, c: nat, e: nat, j: nat)
    requires AlikeToColon(t, u, c) && QueryAt(ListedName, u, e, j) && c < j
    ensures !PlainQueryFrom(t, 0)
  {
    var j' := ValueOverColon(t, u, c, e, j);
    assert t[0..] == t;
    NotPlain(t[e + 1..j'], c - e - 1);
  }

  /** A plain query value is in front of the colon, and so the same in both texts. */
  lemma QueryBeforeColon(t: string, u: string, c: nat)
    requires AlikeToColon(t, u, c) && PlainQueryFrom(t, 0)
    ensures PlainQueryFrom(u, 0)
  {
    assert u[0..] == u;
    if QueryMatch(u).Some? {
      var e, j := QueryMatch(u).value.0 - 1, QueryMatch(u).value.1;
      if j <= c {
        ValueBeforeColon(t, u, c, e, j);
      } else {
        ColonInValue(t, u, c, e, j);
      }
    }
  }

  lemma PlainInFront(t: string, u: string, c: nat, p: nat)
    requires AlikeToColon(t, u, c) && p <= c && PlainQueryFrom(t, p)
    ensures PlainQueryFrom(u, p)
  {
    var t', u' := t[p..], u[p..];
    assert t'[0..] == t' && u'[0..] == u';
    QueryBeforeColon(t', u', c - p);
  }

  lemma NothingInMarker(marker: string, y: string, r: string, p: nat)
    requires IsMarker(marker) && |y| <= p < |y| + |marker|
    ensures PlainQueryFrom(y + marker + r, p)
  {
    var u := y + marker + r;
    assert u[p] == marker[p - |y|] && u[p..][0] == u[p];
  }

  lemma SameQueryFrom(t: string, u: string, q: nat, p: nat)
    requires q <= |t| && p <= |u| && t[q..] == u[p..] && PlainQueryFrom(t, q)
    ensures PlainQueryFrom(u, p)
  {}

  lemma BehindBoth(y: string, v: string, w: string, r: string, k: nat)
    requires k <= |r|
    ensures (y + v + r)[|y| + |v| + k..] == r[k..] == (y + w + r)[|y| + |w| + k..]
  {}

  lemma AlikeUpToValue(y: string, v: string, w: string, r: string)
    requires v != "" && w != "" && y != "" && y[|y| - 1] == ':'
    ensures AlikeToColon(y + v + r, y + w + r, |y| - 1)
  {}

  lemma EndsInColon(x: string, h: string, v: string, r: string)
    requires Credential(UrlMatch, h, v, r)
    ensures x + h != "" && (x + h)[|x + h| - 1] == ':' && v != ""
  {
    UrlCredentialShape(h, v, r);
  }

  /** Exchanging a URL password for the marker leaves the query values plain. */
  lemma PasswordKeepsPlain(marker: string, x: string, h: string, v: string, r: string, p: nat)
    requires IsMarker(marker) && Credential(UrlMatch, h, v, r) && PlainQueries(x + h + v + r)
    requires p <= |x + h + marker + r|
    ensures PlainQueryFrom(x + h + marker + r, p)
  {
    var y := x + h;
    EndsInColon(x, h, v, r);
    if p < |y| {
      AlikeUpToValue(y, v, marker, r);
      PlainInFront(y + v + r, y + marker + r, |y| - 1, p);
    } else if p < |y| + |marker| {
      NothingInMarker(marker, y, r, p);
    } else {
      var k := p - |y| - |marker|;
      BehindBoth(y, v, marker, r, k);
      assert PlainQueryFrom(y + v + r, |y| + |v| + k);
      SameQueryFrom(y + v + r, y + marker + r, |y| + |v| + k, p);
    }
  }

  lemma {:induction false} UrlsKeepQueriesPlain(marker: string, y: string, s: string)
    requires IsMarker(marker) && PlainQueries(y + s)
    ensures PlainQueries(y + UrlsReplaced(marker, s))
    decreases |s|
  {
    if s == "" {
      UrlStable();
    } else {
      UrlsReplacedStep(marker, s);
      if UrlMatch(s).None? {
        FirstAndRest(s);
        Associative(y, [s[0]], s[1..]);
        UrlsKeepQueriesPlain(marker, y + [s[0]], s[1..]);
        Associative(y, [s[0]], UrlsReplaced(marker, s[1..]));
      } else {
        UrlsKeepPlainAtMatch(marker, y, s);
      }
    }
  }

  lemma {:induction false} UrlsKeepPlainAtMatch(marker: string, y: string, s: string)
    requires IsMarker(marker) && PlainQueries(y + s) && s != "" && UrlMatch(s).Some?
    ensures PlainQueries(y + UrlsReplaced(marker, s))
    decreases |s|, 0
  {
    var (i, j) := UrlMatch(s).value;
    var h, v, r := s[..i], s[i..j], s[j..];
    FourParts(y, s, i, j);
    UrlStable();
    MatchIsCredential(UrlMatch, s);
    forall p: nat | p <= |y + h + marker + r| ensures PlainQueryFrom(y + h + marker + r, p) {
      PasswordKeepsPlain(marker, y, h, v, r, p);
    }
    UrlsKeepQueriesPlain(marker, y + h + marker, r);
    UrlsReplacedStep(marker, s);
    RegroupedFour(y, h, marker, UrlsReplaced(marker, r));
  }

  lemma PlainIsHarmless(marker: string, s: string)
    requires PlainQueries(s)
    ensures HarmlessQueries(marker, s)
  {
    forall p | 0 <= p <= |s| ensures HarmlessFrom(marker, s, p) {
      assert PlainQueryFrom(s, p);
      if QueryMatch(s[p..]).Some? {
        PlainDoesNotBlock(marker, s[p..][QueryMatch(s[p..]).value.0..QueryMatch(s[p..]).value.1]);
      }
    }
  }

  lemma PlainTextIsClean(marker: string, text: string)
    requires IsMarker(marker) && Plain(marker) && PlainQueries(text)
    ensures Clean(UrlMatch, marker, Out(marker, text))
  {
    NothingAdded(text);
    NothingAdded(UrlsReplaced(marker, text));
    UrlsKeepQueriesPlain(marker, "", text);
    PlainIsHarmless(marker, UrlsReplaced(marker, text));
    HarmlessIsClean(marker, text);
  }

  /**
   * If no query value of the text has an `@`, a colon or a slash, then every URL password of its
   * scrubbed form is marked.
   */
  lemma PlainTextIsSafe(text: string, p: nat, a: nat, b: nat, e: nat)
    requires PlainQueries(text)
    requires p <= |ScrubSecretsFromText(text)| && UrlAt(ScrubSecretsFromText(text)[p..], a, b, e)
    ensures ScrubSecretsFromText(text)[p..][b + 1..e] == REDACTED
  {
    RedactedIsMarker();
    MarkerIsPlain();
    PlainTextIsClean(REDACTED, text);
    OutIsScrubbed(text);
    assert CleanFrom(UrlMatch, REDACTED, ScrubSecretsFromText(text), p);
    CleanPassword(REDACTED, ScrubSecretsFromText(text)[p..], a, b, e);
  }
}
