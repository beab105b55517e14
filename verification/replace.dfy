/**
 * Leftmost, non-overlapping replacement of a captured piece of text, for any matcher.
 * A matcher looks at the start of a text: `Some((i, j))` means that the text begins with a match
 * whose piece to replace is `s[i..j]`.
 */
module Replace {
  import opened Text

  type Matcher = string -> Option<(nat, nat)>

  ghost predicate InBounds(m: Matcher) {
    forall s: string :: m(s).Some? ==> 0 < m(s).value.0 < m(s).value.1 <= |s|
  }

  function ReplaceAll(m: Matcher, marker: string, s: string): string
    requires InBounds(m)
    decreases |s|
  {
    if s == "" then ""
    else match m(s)
      case Some((i, j)) => s[..i] + marker + ReplaceAll(m, marker, s[j..])
      case None => [s[0]] + ReplaceAll(m, marker, s[1..])
  }

  // ---- What a matcher must satisfy ----

  /** `h + v + r` starts with a match whose piece to replace is `v`. */
  predicate Credential(m: Matcher, h: string, v: string, r: string) {
    m(h + v + r) == Some((|h|, |h| + |v|))
  }

  predicate SameFirst(r: string, r': string) {
    if r == "" then r' == "" else r' != "" && r[0] == r'[0]
  }

  /**
   * Reading a text from its start does not depend on the value of a credential further on: the
   * match ends before that credential, or the credential's value is where its piece ends.
   */
  predicate StableAt(m: Matcher, ok: string -> bool, x: string, h: string, v: string, v': string, r: string, r': string)
  {
    Credential(m, h, v, r) && ok(v') && SameFirst(r, r') && m(x + h + v + r).Some? ==>
      ReadAlike(m, x + h + v + r, x + h + v' + r', |x|, |x + h|, |x + h| + |v|, |x + h| + |v'|)
  }

  /** The match in `t` ends before `x` and is there in `u` too, or its piece ends at `k` and the one in `u` at `k'`. */
  predicate ReadAlike(m: Matcher, t: string, u: string, x: nat, n: nat, k: nat, k': nat)
    requires m(t).Some?
  {
    var (i, j) := m(t).value;
    (i < j <= x && m(u) == Some((i, j))) || (i <= n && j == k && m(u) == Some((i, k')))
  }

  ghost predicate Stable(m: Matcher, ok: string -> bool) {
    && InBounds(m)
    && (forall h, v, r :: Credential(m, h, v, r) ==> ok(v))
    && (forall x, h, v, v', r, r' :: StableAt(m, ok, x, h, v, v', r, r'))
  }

  /** A match at the start of `s`, if there is one, holds the marker. */
  predicate CleanAt(m: Matcher, marker: string, s: string) {
    m(s).Some? && 0 < m(s).value.0 < m(s).value.1 <= |s| ==> s[m(s).value.0..m(s).value.1] == marker
  }

  /** Every match in `s`, at whatever position, holds the marker. */
  ghost predicate Clean(m: Matcher, marker: string, s: string) {
    forall p :: 0 <= p <= |s| ==> CleanFrom(m, marker, s, p)
  }

  predicate CleanFrom(m: Matcher, marker: string, s: string, p: nat)
    requires p <= |s|
  {
    CleanAt(m, marker, s[p..])
  }

  predicate CleanInsideAt(m: Matcher, marker: string, h: string, r: string, p: nat) {
    Credential(m, h, marker, r) && p < |h| + |marker| ==> CleanAt(m, marker, (h + marker + r)[p..])
  }

  /** Nothing inside a credential with the marker for a value starts a credential with another value. */
  ghost predicate CleanInside(m: Matcher, marker: string) {
    forall h, r, p: nat :: CleanInsideAt(m, marker, h, r, p)
  }

  // ---- Consequences ----

  lemma MatchIsCredential(m: Matcher, u: string)
    requires InBounds(m) && m(u).Some?
    ensures var (i, j) := m(u).value; u == u[..i] + u[i..j] + u[j..] && Credential(m, u[..i], u[i..j], u[j..])
  {
    var (i, j) := m(u).value;
    assert u == u[..i] + u[i..j] + u[j..];
  }

  lemma ReplaceAtMatch(m: Matcher, marker: string, h: string, v: string, r: string)
    requires InBounds(m) && Credential(m, h, v, r)
    ensures ReplaceAll(m, marker, h + v + r) == h + marker + ReplaceAll(m, marker, r)
  {
    var t := h + v + r;
    assert t[..|h|] == h && t[|h| + |v|..] == r;
  }

  predicate NoneAt(m: Matcher, s: string, p: nat)
    requires p <= |s|
  {
    m(s[p..]).None?
  }

  /** What no match starts in is copied. */
  lemma {:induction false} ReplaceCopies(m: Matcher, marker: string, s: string, k: nat)
    requires InBounds(m) && k <= |s| && forall p :: 0 <= p < k ==> NoneAt(m, s, p)
    ensures ReplaceAll(m, marker, s) == s[..k] + ReplaceAll(m, marker, s[k..])
    decreases k
  {
    assert s[0..] == s;
    if k == 0 {
    } else {
      assert NoneAt(m, s, 0);
      forall p | 0 <= p < k - 1 ensures NoneAt(m, s[1..], p) {
        assert s[1..][p..] == s[p + 1..] && NoneAt(m, s, p + 1);
      }
      ReplaceCopies(m, marker, s[1..], k - 1);
      assert s[1..][k - 1..] == s[k..] && s[..k] == [s[0]] + s[1..][..k - 1];
    }
  }

  lemma FirstKept(m: Matcher, marker: string, u: string)
    requires InBounds(m)
    ensures SameFirst(u, ReplaceAll(m, marker, u))
  {}

  /** A scrubbed credential is still a credential, now with the marker for a value. */
  lemma MarkedCredential(m: Matcher, ok: string -> bool, marker: string, h: string, v: string, r: string, r': string)
    requires Stable(m, ok) && ok(marker) && Credential(m, h, v, r) && SameFirst(r, r')
    ensures Credential(m, h, marker, r')
  {
    assert StableAt(m, ok, "", h, v, marker, r, r');
    assert "" + h == h;
  }

  /** Behind whatever comes first, replacing creates no match that was not there. */
  lemma {:induction false} ReplaceAddsNone(m: Matcher, ok: string -> bool, marker: string, x: string, u: string)
    requires Stable(m, ok) && ok(marker) && m(x + ReplaceAll(m, marker, u)).Some?
    ensures m(x + u).Some?
    decreases |u|
  {
    if u == "" {
    } else {
      match m(u)
      case None =>
        Associative(x, [u[0]], ReplaceAll(m, marker, u[1..]));
        ReplaceAddsNone(m, ok, marker, x + [u[0]], u[1..]);
        FirstAndRest(u);
        Associative(x, [u[0]], u[1..]);
      case Some(_) => AddsNoneAtMatch(m, ok, marker, x, u);
    }
  }

  lemma AddsNoneAtMatch(m: Matcher, ok: string -> bool, marker: string, x: string, u: string)
    requires Stable(m, ok) && ok(marker) && m(u).Some? && m(x + ReplaceAll(m, marker, u)).Some?
    ensures m(x + u).Some?
  {
    var (i, j) := m(u).value;
    MatchIsCredential(m, u);
    ReplaceAtMatch(m, marker, u[..i], u[i..j], u[j..]);
    CredentialAddsNone(m, ok, marker, x, u[..i], u[i..j], u[j..]);
    FourParts(x, u, i, j);
  }

  lemma FourParts(x: string, u: string, i: nat, j: nat)
    requires i <= j <= |u|
    ensures x + u == x + u[..i] + u[i..j] + u[j..]
  {}

  lemma CredentialAddsNone(m: Matcher, ok: string -> bool, marker: string, x: string, h: string, v: string, r: string)
    requires Stable(m, ok) && ok(marker) && Credential(m, h, v, r)
    ensures m(x + (h + marker + ReplaceAll(m, marker, r))).Some? ==> m(x + h + v + r).Some?
  {
    var r' := ReplaceAll(m, marker, r);
    FirstKept(m, marker, r);
    MarkedCredential(m, ok, marker, h, v, r, r');
    assert x + (h + marker + r') == x + h + marker + r';
    assert StableAt(m, ok, x, h, marker, v, r', r);
  }

  /** After the replacement every match, at every position, holds the marker. */
  lemma {:induction false} ReplaceClean(m: Matcher, ok: string -> bool, marker: string, s: string, p: nat)
    requires Stable(m, ok) && ok(marker) && CleanInside(m, marker) && p <= |ReplaceAll(m, marker, s)|
    ensures CleanAt(m, marker, ReplaceAll(m, marker, s)[p..])
    decreases |s|
  {
    var out := ReplaceAll(m, marker, s);
    if s == "" {
      assert out[p..] == "" && InBounds(m);
    } else {
      match m(s)
      case Some((i, j)) =>
        var h, v, r := s[..i], s[i..j], s[j..];
        var r' := ReplaceAll(m, marker, r);
        var n := |h| + |marker|;
        assert out == h + marker + r';
        if p < n {
          MatchIsCredential(m, s);
          FirstKept(m, marker, r);
          MarkedCredential(m, ok, marker, h, v, r, r');
          assert CleanInsideAt(m, marker, h, r', p);
        } else {
          ReplaceClean(m, ok, marker, r, p - n);
          assert out[p..] == r'[p - n..];
        }
      case None =>
        var r' := ReplaceAll(m, marker, s[1..]);
        if p == 0 {
          assert out[0..] == out == [s[0]] + r';
          assert [s[0]] + s[1..] == s;
          if m(out).Some? {
            ReplaceAddsNone(m, ok, marker, [s[0]], s[1..]);
          }
        } else {
          ReplaceClean(m, ok, marker, s[1..], p - 1);
          assert out[p..] == r'[p - 1..];
        }
    }
  }

  lemma CleanSuffix(m: Matcher, marker: string, s: string, n: nat)
    requires n <= |s| && Clean(m, marker, s)
    ensures Clean(m, marker, s[n..])
  {
    forall p | 0 <= p <= |s[n..]| ensures CleanFrom(m, marker, s[n..], p) {
      assert s[n..][p..] == s[n + p..];
      assert CleanFrom(m, marker, s, n + p);
    }
  }

  lemma ThreeParts(s: string, i: nat, j: nat)
    requires i <= j <= |s|
    ensures s == s[..i] + s[i..j] + s[j..]
  {}

  /** A clean text is left as it is. */
  lemma {:induction false} ReplaceKeepsClean(m: Matcher, marker: string, s: string)
    requires InBounds(m) && Clean(m, marker, s)
    ensures ReplaceAll(m, marker, s) == s
    decreases |s|
  {
    if s == "" {
    } else {
      assert CleanFrom(m, marker, s, 0);
      assert s[0..] == s;
      var n := match m(s) case Some((i, j)) => j case None => 1;
      CleanSuffix(m, marker, s, n);
      ReplaceKeepsClean(m, marker, s[n..]);
      if m(s).Some? {
        ThreeParts(s, m(s).value.0, m(s).value.1);
      } else {
        FirstAndRest(s);
      }
    }
  }

  lemma ReplaceIdempotent(m: Matcher, ok: string -> bool, marker: string, s: string)
    requires Stable(m, ok) && ok(marker) && CleanInside(m, marker)
    ensures ReplaceAll(m, marker, ReplaceAll(m, marker, s)) == ReplaceAll(m, marker, s)
  {
    var out := ReplaceAll(m, marker, s);
    forall p | 0 <= p <= |out| ensures CleanFrom(m, marker, out, p) {
      ReplaceClean(m, ok, marker, s, p);
    }
    ReplaceKeepsClean(m, marker, out);
  }

  /** Both texts start with a match, and both replacements go on in texts that are again alike. */
  lemma MatchesAlike(m: Matcher, ok: string -> bool, x: string, h: string, v: string, v': string, r: string)
    requires Stable(m, ok) && Credential(m, h, v, r) && ok(v') && m(x + h + v + r).Some?
    ensures var t, u := x + h + v + r, x + h + v' + r;
            m(u).Some? && m(t).value.0 == m(u).value.0 && t[..m(t).value.0] == u[..m(u).value.0]
            && (t[m(t).value.1..] == u[m(u).value.1..]
                || (m(t) == m(u) && 0 < m(t).value.1 <= |x|))
  {
    var t, u, n := x + h + v + r, x + h + v' + r, |x + h|;
    assert StableAt(m, ok, x, h, v, v', r, r);
    assert t[..n] == u[..n] == x + h;
    var (i, j) := m(t).value;
    assert t[..i] == t[..n][..i] == u[..n][..i] == u[..i];
    assert t[n + |v|..] == r == u[n + |v'|..];
  }

  /** Two texts that start alike, up to where the replacements go on alike. */
  lemma SameStep(m: Matcher, marker: string, t: string, u: string)
    requires InBounds(m) && t != "" && u != "" && (m(t).Some? <==> m(u).Some?)
    requires m(t).None? ==> t[0] == u[0] && ReplaceAll(m, marker, t[1..]) == ReplaceAll(m, marker, u[1..])
    requires m(t).Some? ==>
      var (i, j) := m(t).value; var (i', j') := m(u).value;
      t[..i] == u[..i'] && ReplaceAll(m, marker, t[j..]) == ReplaceAll(m, marker, u[j'..])
    ensures ReplaceAll(m, marker, t) == ReplaceAll(m, marker, u)
  {}

  /** The result does not depend on a credential's value, whatever stands before and after it. */
  lemma {:induction false} ReplaceHidesValue(m: Matcher, ok: string -> bool, marker: string,
                                             x: string, h: string, v: string, v': string, r: string)
    requires Stable(m, ok) && Credential(m, h, v, r) && ok(v')
    ensures ReplaceAll(m, marker, x + h + v + r) == ReplaceAll(m, marker, x + h + v' + r)
    decreases |x|
  {
    MarkedCredential(m, ok, v', h, v, r, r);
    if x == "" {
      assert x + h == h;
      ReplaceAtMatch(m, marker, h, v, r);
      ReplaceAtMatch(m, marker, h, v', r);
    } else {
      var k := 1;
      if m(x + h + v + r).Some? {
        MatchesAlike(m, ok, x, h, v, v', r);
        k := m(x + h + v + r).value.1;
      } else if m(x + h + v' + r).Some? {
        MatchesAlike(m, ok, x, h, v', v, r);
      }
      if k <= |x| {
        SuffixBehind(x, h, v, r, k);
        SuffixBehind(x, h, v', r, k);
        ReplaceHidesValue(m, ok, marker, x[k..], h, v, v', r);
      }
      SameStep(m, marker, x + h + v + r, x + h + v' + r);
    }
  }

  lemma SuffixBehind(x: string, h: string, v: string, r: string, k: nat)
    requires k <= |x|
    ensures (x + h + v + r)[k..] == x[k..] + h + v + r
  {}
}
