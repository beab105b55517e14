/**
 * Query values that are safe to write into a text that is going to be scrubbed, although they are
 * not plain: they end in a URL that goes on behind them, so that no user name gets through.
 */
module ScrubProtected {
  import opened Text
  import opened Replace
  import opened Scrub
  import opened ScrubExact
  import opened ScrubUrlPasswords
  import opened ScrubFinal

  // ---- The condition ----

  /** Apart from the credential with the value `v` behind `x`, the text has plain query values only. */
  predicate PlainAround(x: string, h: string, v: string, r: string) {
    forall p :: 0 <= p <= |x + h + v + r| && (p < |x| || p >= |x + h + v|) ==> PlainQueryFrom(x + h + v + r, p)
  }

  /** Among plain query values, `v` leaves all URL passwords of the scrubbed text marked. */
  ghost predicate SafeInText(marker: string, v: string) {
    forall x, h, r :: Credential(QueryMatch, h, v, r) && PlainAround(x, h, v, r) ==>
      Clean(UrlMatch, marker, Out(marker, x + h + v + r))
  }

  /** A URL is read from the start of `t` on, and has reached its user when `t` ends. */
  predicate OpenUser(t: string) { Unfinished(t) && RunEnd(t, SchemeEnd(t) + 3, UserChar) == |t| }

  /** The same for its password. */
  predicate OpenPassword(t: string) { Unfinished(t) && RunEnd(t, SchemeEnd(t) + 3, UserChar) < |t| }

  /** The first character that ends a user name is a colon, and no `@` comes behind it. */
  predicate OpenColon(v: string) {
    UserEnd(v) < |v| && v[UserEnd(v)] == ':' && RunEnd(v, UserEnd(v) + 1, PassChar) == |v|
  }

  /**
   * The value ends in the user of a URL that starts in it, and not in a password: neither in that of a
   * URL that starts in it, nor in that of one whose user goes on into the value.
   */
  predicate Protected(v: string) {
    (exists q :: 0 <= q < |v| && OpenUser(v[q..])) && (forall q :: 0 <= q < |v| ==> !OpenPassword(v[q..]))
        && !OpenColon(v)
  }

  lemma NoAtInOpen(t: string, k: nat)
    requires Unfinished(t) && k < |t|
    ensures t[k] != '@'
  {}

  lemma AtInFront(v: string, q: nat, k: nat)
    requires q < |v| && Unfinished(v[q..]) && k < |v| && v[k] == '@'
    ensures k < q
  {
    forall m | q <= m < |v| ensures v[m] != '@' {
      NoAtInOpen(v[q..], m - q);
      assert v[m] == v[q..][m - q];
    }
  }

  // ---- Behind the value ----

  /** The query at `p` has a harmless value that ends at `n` or before. */
  predicate HarmlessUpTo(marker: string, t: string, p: nat, n: nat)
    requires p <= |t|
  {
    QueryMatch(t[p..]).Some? && p + QueryMatch(t[p..]).value.1 <= n && HarmlessFrom(marker, t, p)
  }

  /** Every query value is plain, or harmless and in front of `n`. */
  predicate Settling(marker: string, t: string, n: nat) {
    forall p :: 0 <= p <= |t| ==> PlainQueryFrom(t, p) || HarmlessUpTo(marker, t, p, n)
  }

  lemma PlainIsHarmlessAt(marker: string, t: string, p: nat)
    requires p <= |t| && PlainQueryFrom(t, p)
    ensures HarmlessFrom(marker, t, p)
  {
    if QueryMatch(t[p..]).Some? {
      PlainDoesNotBlock(marker, t[p..][QueryMatch(t[p..]).value.0..QueryMatch(t[p..]).value.1]);
    }
  }

  /** In front of the colon, both texts read the same query. */
  lemma SameInFront(t: string, u: string, c: nat, e: nat, j: nat)
    requires AlikeToColon(t, u, c) && QueryAt(ListedName, t, e, j) && j <= c
    ensures QueryMatch(u) == Some((e + 1, j)) && t[e + 1..j] == u[e + 1..j]
  {
    NameBeforeColon(u, t, c, e, j);
    SameName(t, u, e, j, j);
  }

  lemma AlikeBehind(t: string, u: string, c: nat, p: nat)
    requires AlikeToColon(t, u, c) && p <= c
    ensures AlikeToColon(t[p..], u[p..], c - p)
  {}

  lemma KeepsHarmless(marker: string, t: string, u: string, c: nat, p: nat, n: nat)
    requires AlikeToColon(t, u, c) && p <= c && n <= c && HarmlessUpTo(marker, t, p, n)
    ensures HarmlessUpTo(marker, u, p, n)
  {
    var (i, j) := QueryMatch(t[p..]).value;
    AlikeBehind(t, u, c, p);
    SameInFront(t[p..], u[p..], c - p, i - 1, j);
  }

  /**
   * A password behind the colon at `c` was exchanged for the marker: it ends at `k` in `t`, the marker
   * at `k'` in `u`.
   */
  predicate Exchanged(t: string, u: string, c: nat, k: nat, k': nat) {
    Matching(t, u, c + 1, k, k') && t[c] == ':' && forall m :: c < m < k' ==> ValueChar(u[m]) && !Opens(u[m])
  }

  lemma AroundPassword(y: string, v: string, m: string, r: string)
    requires y != "" && y[|y| - 1] == ':' && IsMarker(m)
    ensures Exchanged(y + v + r, y + m + r, |y| - 1, |y| + |v|, |y| + |m|)
  {
    var u := y + m + r;
    forall i | |y| <= i < |y| + |m| ensures ValueChar(u[i]) && !Opens(u[i]) { assert u[i] == m[i - |y|]; }
  }

  lemma AlikeInFront(t: string, u: string, c: nat, k: nat, k': nat)
    requires Exchanged(t, u, c, k, k')
    ensures AlikeToColon(t, u, c)
  {}

  /** Behind the exchange the texts are the same. */
  lemma SameBehind(t: string, u: string, c: nat, k: nat, k': nat, p: nat)
    requires Exchanged(t, u, c, k, k') && k' <= p <= |u|
    ensures t[p - k' + k..] == u[p..]
  {
    var a, b := t[p - k' + k..], u[p..];
    assert |a| == |b|;
    forall i | 0 <= i < |b| ensures a[i] == b[i] {
      assert b[i] == u[p + i] && a[i] == t[p - k' + k + i];
    }
  }

  lemma NoneInMarker(t: string, u: string, c: nat, k: nat, k': nat, p: nat)
    requires Exchanged(t, u, c, k, k') && c < p < k'
    ensures PlainQueryFrom(u, p)
  {
    assert u[p..][0] == u[p];
  }

  /** Exchanging a URL password behind `n` for the marker keeps this. */
  lemma SettlingKept(marker: string, t: string, u: string, c: nat, k: nat, k': nat, n: nat, p: nat)
    requires Exchanged(t, u, c, k, k') && Settling(marker, t, n) && n <= c && p <= |u|
    ensures PlainQueryFrom(u, p) || HarmlessUpTo(marker, u, p, n)
  {
    if p <= c {
      AlikeInFront(t, u, c, k, k');
      if PlainQueryFrom(t, p) {
        PlainInFront(t, u, c, p);
      } else {
        KeepsHarmless(marker, t, u, c, p, n);
      }
    } else if p < k' {
      NoneInMarker(t, u, c, k, k', p);
    } else {
      SameBehind(t, u, c, k, k', p);
      assert !HarmlessUpTo(marker, t, p - k' + k, n);
      SameQueryFrom(t, u, p - k' + k, p);
    }
  }

  lemma SettlingKeptAll(marker: string, t: string, u: string, c: nat, k: nat, k': nat, n: nat)
    requires Exchanged(t, u, c, k, k') && Settling(marker, t, n) && n <= c
    ensures Settling(marker, u, k')
  {
    forall p | 0 <= p <= |u| ensures PlainQueryFrom(u, p) || HarmlessUpTo(marker, u, p, k') {
      SettlingKept(marker, t, u, c, k, k', n, p);
    }
  }

  /** One step of the first replacement, with the text `y` in front of it. */
  lemma MatchExchanged(marker: string, y: string, s: string, i: nat, j: nat)
    requires IsMarker(marker) && UrlMatch(s) == Some((i, j))
    ensures 0 < i < j <= |s|
    ensures Exchanged(y + s, y + s[..i] + marker + s[j..], |y| + i - 1, |y| + j, |y| + i + |marker|)
  {
    assert (y + s[..i])[|y| + i - 1] == s[i - 1] == ':';
    FourParts(y, s, i, j);
    AroundPassword(y + s[..i], s[i..j], marker, s[j..]);
  }

  lemma {:induction false} UrlsSettle(marker: string, y: string, s: string)
    requires IsMarker(marker) && Settling(marker, y + s, |y|)
    ensures HarmlessQueries(marker, y + UrlsReplaced(marker, s))
    decreases |s|
  {
    if s == "" {
      UrlStable();
      NothingAdded(y);
      forall p | 0 <= p <= |y| ensures HarmlessFrom(marker, y, p) {
        if PlainQueryFrom(y, p) {
          PlainIsHarmlessAt(marker, y, p);
        }
      }
    } else if UrlMatch(s).None? {
      UrlsReplacedStep(marker, s);
      FirstAndRest(s);
      Associative(y, [s[0]], s[1..]);
      UrlsSettle(marker, y + [s[0]], s[1..]);
      Associative(y, [s[0]], UrlsReplaced(marker, s[1..]));
    } else {
      UrlsSettleAtMatch(marker, y, s, |y|);
    }
  }

  lemma {:induction false} UrlsSettleAtMatch(marker: string, y: string, s: string, n: nat)
    requires IsMarker(marker) && Settling(marker, y + s, n) && s != "" && UrlMatch(s).Some?
    requires n < |y| + UrlMatch(s).value.0
    ensures HarmlessQueries(marker, y + UrlsReplaced(marker, s))
    decreases |s|, 0
  {
    var (i, j) := UrlMatch(s).value;
    var z, r := y + s[..i] + marker, s[j..];
    MatchExchanged(marker, y, s, i, j);
    SettlingKeptAll(marker, y + s, z + r, |y| + i - 1, |y| + j, |y| + i + |marker|, n);
    UrlsSettle(marker, z, r);
    UrlsReplacedStep(marker, s);
    RegroupedFour(y, s[..i], marker, UrlsReplaced(marker, r));
  }

  // ---- In the value ----

  predicate EndsAt(t: string, p: nat, n: nat)
    requires p <= |t|
  {
    QueryMatch(t[p..]).Some? && p + QueryMatch(t[p..]).value.1 == n
  }

  /** Every query value is plain or ends at `n`. */
  predicate PlainOrLast(t: string, n: nat) { forall p :: 0 <= p <= |t| ==> PlainQueryFrom(t, p) || EndsAt(t, p, n) }

  /** Besides, the text up to `z` ends in the URL `g` that has reached its user. */
  predicate OpenAtEnd(z: string, r: string, g: string) {
    OpenUser(g) && |g| <= |z| && z[|z| - |g|..] == g && PlainOrLast(z + r, |z|)
  }

  lemma OpenIsNotSettled(marker: string, w: string, g: string)
    requires OpenUser(g) && |g| <= |w| && w[|w| - |g|..] == g
    ensures !Uncovers(marker, w)
  {
    assert !SettledAt(marker, w, |w| - |g|);
  }

  /** A value that is less than the end of an open URL, behind an equals sign, is plain. */
  lemma PlainInUser(g: string, w: string)
    requires OpenUser(g) && |w| < |g| && g[|g| - |w|..] == w && g[|g| - |w| - 1] == '=' && QueryValue(w)
    ensures Plain(w)
  {
    var a, n := SchemeEnd(g), |g| - |w|;
    assert n - 1 >= a + 3;
    forall k | 0 <= k < |w| ensures UserChar(w[k]) { assert w[k] == g[n + k]; }
  }

  lemma EndOfEnd(t: string, z: string, g: string, p: nat, i: nat)
    requires |g| <= |z| && z[|z| - |g|..] == g && z <= t && p + i <= |z|
    ensures var w := t[p..][i..|z| - p];
            (|w| >= |g| ==> w[|w| - |g|..] == g)
                && (|w| < |g| ==> g[|g| - |w|..] == w && g[|g| - |w| - 1] == z[p + i - 1])
  {}

  /** A value that ends in an open URL uncovers nothing; one that is less than its end is plain. */
  lemma EndingIsHarmless(marker: string, w: string, g: string)
    requires OpenUser(g) && QueryValue(w) && (|w| >= |g| ==> w[|w| - |g|..] == g)
    requires |w| < |g| ==> g[|g| - |w|..] == w && g[|g| - |w| - 1] == '='
    ensures !Uncovers(marker, w) || Plain(w)
  {
    if |w| >= |g| {
      OpenIsNotSettled(marker, w, g);
    } else {
      PlainInUser(g, w);
    }
  }

  lemma FitsUpTo(marker: string, t: string, p: nat, i: nat, j: nat)
    requires p <= |t| && QueryMatch(t[p..]) == Some((i, j)) && i <= j <= |t[p..]|
    requires !Uncovers(marker, t[p..][i..j]) || Plain(t[p..][i..j])
    ensures HarmlessUpTo(marker, t, p, p + j) || PlainQueryFrom(t, p)
  {}

  lemma BeforeValue(t: string, z: string, p: nat, i: nat)
    requires z <= t && 0 < i && p + i <= |z|
    ensures t[p..][i - 1] == z[p + i - 1]
  {
    assert t[p + i - 1] == z[p + i - 1];
  }

  lemma LastIsHarmless(marker: string, t: string, z: string, g: string, p: nat)
    requires OpenUser(g) && |g| <= |z| && z[|z| - |g|..] == g && z <= t && p <= |t| && EndsAt(t, p, |z|)
    ensures HarmlessUpTo(marker, t, p, |z|) || PlainQueryFrom(t, p)
  {
    var s := t[p..];
    var (i, j) := QueryMatch(s).value;
    EndOfEnd(t, z, g, p, i);
    ValueOfMatch(s, i, j);
    BeforeValue(t, z, p, i);
    EndingIsHarmless(marker, s[i..j], g);
    FitsUpTo(marker, t, p, i, j);
  }

  lemma ValueOfMatch(t: string, i: nat, j: nat)
    requires QueryMatch(t) == Some((i, j))
    ensures 0 < i < j <= |t| && QueryValue(t[i..j]) && t[i - 1] == '='
  {
    var w := t[i..j];
    forall k | 0 <= k < |w| ensures ValueChar(w[k]) { assert w[k] == t[i + k]; }
  }

  lemma LastSettles(marker: string, z: string, r: string, g: string)
    requires OpenAtEnd(z, r, g)
    ensures Settling(marker, z + r, |z|)
  {
    forall p | 0 <= p <= |z + r| ensures PlainQueryFrom(z + r, p) || HarmlessUpTo(marker, z + r, p, |z|) {
      if !PlainQueryFrom(z + r, p) {
        LastIsHarmless(marker, z + r, z, g, p);
      }
    }
  }

  /** A query value that goes on over the colon and the password: with the marker it goes on as far. */
  lemma LastOverPassword(t: string, u: string, c: nat, k: nat, k': nat, e: nat, j: nat)
    requires Exchanged(t, u, c, k, k') && QueryAt(ListedName, t, e, j) && k < j
    ensures QueryMatch(u) == Some((e + 1, j - k + k'))
  {
    AlikeInFront(t, u, c, k, k');
    NameBeforeColon(u, t, c, e, j);
    ValueOverPassword(t, u, c, k, k', e + 1, j);
    SameName(t, u, e, j, j - k + k');
  }

  lemma SameName(t: string, u: string, e: nat, j: nat, j': nat)
    requires QueryAt(ListedName, t, e, j) && e + 1 < j' <= |u| && t[..e + 1] == u[..e + 1]
    requires AllIn(u, e + 1, j', ValueChar) && (j' < |u| ==> !ValueChar(u[j']))
    ensures QueryMatch(u) == Some((e + 1, j'))
  {
    QueryMatchReads();
    QuerySame(ListedName, t, u, e, j, j');
  }

  lemma ValueOverPassword(t: string, u: string, c: nat, k: nat, k': nat, i: nat, j: nat)
    requires Exchanged(t, u, c, k, k') && i <= c && k < j <= |t| && AllIn(t, i, j, ValueChar)
    requires j < |t| ==> !ValueChar(t[j])
    ensures AllIn(u, i, j - k + k', ValueChar) && (j - k + k' < |u| ==> !ValueChar(u[j - k + k']))
  {
    forall m | i <= m < j - k + k' ensures ValueChar(u[m]) {
      if m <= c {
        assert u[m] == t[m];
      } else if m >= k' {
        assert u[m] == t[m - k' + k];
      }
    }
  }

  lemma ExchangedBehind(t: string, u: string, c: nat, k: nat, k': nat, p: nat)
    requires Exchanged(t, u, c, k, k') && p <= c
    ensures Exchanged(t[p..], u[p..], c - p, k - p, k' - p)
  {}

  lemma LastInFront(t: string, u: string, c: nat, k: nat, k': nat, p: nat, n: nat)
    requires Exchanged(t, u, c, k, k') && p <= c && k < n && EndsAt(t, p, n)
    ensures EndsAt(u, p, n - k + k')
  {
    var s, s' := t[p..], u[p..];
    var e, j := QueryReads(s);
    ExchangedBehind(t, u, c, k, k', p);
    LastOverPassword(s, s', c - p, k - p, k' - p, e, j);
  }

  lemma QueryReads(s: string) returns (e: nat, j: nat)
    requires QueryMatch(s).Some?
    ensures QueryMatch(s) == Some((e + 1, j)) && QueryAt(ListedName, s, e, j)
  {
    e, j := QueryMatch(s).value.0 - 1, QueryMatch(s).value.1;
  }

  lemma SameEnd(t: string, u: string, q: nat, p: nat, m: nat, n: nat)
    requires q <= |t| && p <= |u| && t[q..] == u[p..] && EndsAt(t, q, m) && m - q == n - p
    ensures EndsAt(u, p, n)
  {}

  /** Exchanging a URL password in front of `n` keeps this. */
  lemma LastKept(t: string, u: string, c: nat, k: nat, k': nat, n: nat, p: nat)
    requires Exchanged(t, u, c, k, k') && PlainOrLast(t, n) && k < n && p <= |u|
    ensures PlainQueryFrom(u, p) || EndsAt(u, p, n - k + k')
  {
    if p <= c {
      AlikeInFront(t, u, c, k, k');
      if PlainQueryFrom(t, p) {
        PlainInFront(t, u, c, p);
      } else {
        LastInFront(t, u, c, k, k', p, n);
      }
    } else if p < k' {
      NoneInMarker(t, u, c, k, k', p);
    } else {
      var q := p - k' + k;
      SameBehind(t, u, c, k, k', p);
      if PlainQueryFrom(t, q) {
        SameQueryFrom(t, u, q, p);
      } else {
        SameEnd(t, u, q, p, n, n - k + k');
      }
    }
  }

  // ---- The first replacement, from the start of the text ----

  /** Every query that starts in front of `n` has a plain value. */
  predicate PlainFront(t: string, n: int) { forall p :: 0 <= p < n && p <= |t| ==> PlainQueryFrom(t, p) }

  /**
   * A URL that starts in `w` has its password behind `w`, or ends in front of the last `g` characters
   * of `w`, or has its user in front of `n`.
   */
  predicate Tame(w: string, r: string, g: nat, n: int) {
    forall k :: 0 <= k < |w| ==> TameAt(w + r, k, |w|, g, n)
  }

  predicate TameAt(t: string, k: nat, m: nat, g: nat, n: int)
    requires k <= |t|
  {
    UrlMatch(t[k..]).Some? ==>
      var (i, j) := UrlMatch(t[k..]).value;
      k + i > m || k + j + g <= m || k + i <= n
  }

  lemma TameSuffix(w: string, r: string, g: nat, n: int, d: nat, n': int)
    requires Tame(w, r, g, n) && d <= |w| && (n' == n - d || n < d)
    ensures Tame(w[d..], r, g, n') && (w + r)[d..] == w[d..] + r
  {
    var t := w + r;
    assert t[d..] == w[d..] + r;
    forall k | 0 <= k < |w[d..]| ensures TameAt(w[d..] + r, k, |w[d..]|, g, n') {
      DropDrop(t, d, k);
      assert TameAt(t, d + k, |w|, g, n);
    }
  }

  /** What the first replacement works on: `y` is done, `w` is the text up to the end of the value. */
  ghost predicate Passing(y: string, w: string, r: string, g: string, n: int) {
    OpenAtEnd(y + w, r, g) && Tame(w, r, |g|, n) && PlainFront(y + w + r, |y| + n)
  }

  lemma {:induction false} UrlsPass(marker: string, y: string, w: string, r: string, g: string, n: int)
    requires IsMarker(marker) && Passing(y, w, r, g, n)
    ensures HarmlessQueries(marker, y + UrlsReplaced(marker, w + r))
    decreases |w|
  {
    if w == "" {
      NothingAdded(y);
      assert w + r == r;
      LastSettles(marker, y, r, g);
      UrlsSettle(marker, y, r);
    } else if UrlMatch(w + r).None? {
      UrlsReplacedStep(marker, w + r);
      FirstAndRest(w);
      Associative(y, [w[0]], w[1..]);
      TameSuffix(w, r, |g|, n, 1, n - 1);
      UrlsPass(marker, y + [w[0]], w[1..], r, g, n - 1);
      Associative(y, [w[0]], UrlsReplaced(marker, w[1..] + r));
    } else {
      UrlsPassAtMatch(marker, y, w, r, g, n);
    }
  }

  lemma {:induction false} UrlsPassAtMatch(marker: string, y: string, w: string, r: string, g: string, n: int)
    requires IsMarker(marker) && Passing(y, w, r, g, n) && w != "" && UrlMatch(w + r).Some?
    ensures HarmlessQueries(marker, y + UrlsReplaced(marker, w + r))
    decreases |w|, 1
  {
    var (i, j) := UrlMatch(w + r).value;
    assert TameAt(w + r, 0, |w|, |g|, n) && (w + r)[0..] == w + r;
    if i > |w| {
      LastSettles(marker, y + w, r, g);
      Associative(y, w, r);
      UrlsSettleAtMatch(marker, y, w + r, |y + w|);
    } else if j + |g| <= |w| {
      UrlsPassInside(marker, y, w, r, g, n, i, j);
    } else {
      MatchBehind(y, w, r, g, i, j);
      UrlsSwallow(marker, y, w, r, g, n, i, j);
    }
  }

  /** No `@` stands in `g`. */
  lemma MatchBehind(y: string, w: string, r: string, g: string, i: nat, j: nat)
    requires OpenAtEnd(y + w, r, g) && UrlMatch(w + r) == Some((i, j)) && j + |g| > |w|
    ensures j >= |w|
  {
    forall k | 0 <= k < |w| && |w| <= k + |g| ensures (w + r)[k] != '@' {
      assert g[k + |g| - |w|] == (y + w)[|y| + k] == (w + r)[k];
      NoAtInOpen(g, k + |g| - |w|);
    }
  }

  lemma {:induction false} UrlsPassInside(marker: string, y: string, w: string, r: string, g: string, n: int, i: nat,
                                          j: nat)
    requires IsMarker(marker) && Passing(y, w, r, g, n) && w != "" && UrlMatch(w + r) == Some((i, j))
    requires j + |g| <= |w|
    ensures HarmlessQueries(marker, y + UrlsReplaced(marker, w + r))
    decreases |w|, 0
  {
    var z := y + (w + r)[..i] + marker;
    var n' := if j <= n then n - j else -|z|;
    ExchangeInside(marker, y, w, r, g, n, i, j);
    TameSuffix(w, r, |g|, n, j, n');
    UrlsPass(marker, z, w[j..], r, g, n');
    UrlsReplacedStep(marker, w + r);
    RegroupedFour(y, (w + r)[..i], marker, UrlsReplaced(marker, (w + r)[j..]));
  }

  lemma ExchangeInside(marker: string, y: string, w: string, r: string, g: string, n: int, i: nat, j: nat)
    requires IsMarker(marker) && OpenAtEnd(y + w, r, g) && UrlMatch(w + r) == Some((i, j)) && j + |g| <= |w|
    requires PlainFront(y + w + r, |y| + n)
    ensures 0 < i < j && OpenAtEnd(y + (w + r)[..i] + marker + w[j..], r, g)
    ensures j <= n ==> PlainFront(y + (w + r)[..i] + marker + w[j..] + r, |y| + i + |marker| + n - j)
  {
    var s := w + r;
    var u, c, k, k' := y + s[..i] + marker + s[j..], |y| + i - 1, |y| + j, |y| + i + |marker|;
    Associative(y, w, r);
    assert PlainOrLast(y + s, |y + w|);
    MatchExchanged(marker, y, s, i, j);
    LastKeptAll(y + s, u, c, k, k', |y + w|);
    if j <= n {
      FrontKept(y + s, u, c, k, k', |y| + n);
    }
    RestInside(y + s[..i] + marker, w, r, j);
    EndStays(y, w, g, y + s[..i] + marker, j);
  }

  lemma FrontKept(t: string, u: string, c: nat, k: nat, k': nat, n: nat)
    requires Exchanged(t, u, c, k, k') && PlainFront(t, n) && k <= n
    ensures PlainFront(u, n - k + k')
  {
    AlikeInFront(t, u, c, k, k');
    forall p | 0 <= p < n - k + k' && p <= |u| ensures PlainQueryFrom(u, p) {
      if p <= c {
        PlainInFront(t, u, c, p);
      } else if p < k' {
        NoneInMarker(t, u, c, k, k', p);
      } else {
        SameBehind(t, u, c, k, k', p);
        SameQueryFrom(t, u, p - k' + k, p);
      }
    }
  }

  /** A password that starts in front of the query and goes on over the value: no query is left that is not plain. */
  lemma UrlsSwallow(marker: string, y: string, w: string, r: string, g: string, n: int, i: nat, j: nat)
    requires IsMarker(marker) && Passing(y, w, r, g, n) && w != "" && UrlMatch(w + r) == Some((i, j))
    requires j >= |w| && i <= n
    ensures HarmlessQueries(marker, y + UrlsReplaced(marker, w + r))
  {
    var s := w + r;
    var z := y + s[..i] + marker;
    Associative(y, w, r);
    assert PlainOrLast(y + s, |y + w|);
    MatchExchanged(marker, y, s, i, j);
    SwallowedPlain(y + s, z + s[j..], |y| + i - 1, |y| + j, |y| + i + |marker|, |y| + n, |y + w|);
    UrlsKeepQueriesPlain(marker, z, s[j..]);
    UrlsReplacedStep(marker, s);
    RegroupedFour(y, s[..i], marker, UrlsReplaced(marker, s[j..]));
    PlainIsHarmless(marker, z + UrlsReplaced(marker, s[j..]));
  }

  lemma SwallowedPlain(t: string, u: string, c: nat, k: nat, k': nat, n: nat, m: nat)
    requires Exchanged(t, u, c, k, k') && PlainFront(t, n) && PlainOrLast(t, m) && c < n && m <= k
    ensures PlainQueries(u)
  {
    AlikeInFront(t, u, c, k, k');
    forall p | 0 <= p <= |u| ensures PlainQueryFrom(u, p) {
      if p <= c {
        PlainInFront(t, u, c, p);
      } else if p < k' {
        NoneInMarker(t, u, c, k, k', p);
      } else {
        SameBehind(t, u, c, k, k', p);
        assert !EndsAt(t, p - k' + k, m);
        SameQueryFrom(t, u, p - k' + k, p);
      }
    }
  }

  lemma RestInside(y: string, w: string, r: string, j: nat)
    requires j <= |w|
    ensures y + (w + r)[j..] == y + w[j..] + r
  {
    assert (w + r)[j..] == w[j..] + r;
    Associative(y, w[j..], r);
  }

  lemma EndStays(y: string, w: string, g: string, y': string, j: nat)
    requires |g| <= |y + w| && (y + w)[|y + w| - |g|..] == g && j + |g| <= |w|
    ensures var z := y' + w[j..]; |g| <= |z| && z[|z| - |g|..] == g
  {}

  lemma LastKeptAll(t: string, u: string, c: nat, k: nat, k': nat, n: nat)
    requires Exchanged(t, u, c, k, k') && PlainOrLast(t, n) && k < n
    ensures PlainOrLast(u, n - k + k')
  {
    forall p | 0 <= p <= |u| ensures PlainQueryFrom(u, p) || EndsAt(u, p, n - k + k') {
      LastKept(t, u, c, k, k', n, p);
    }
  }

  lemma ConcatParts(t: string, r: string, i: nat, j: nat)
    requires i <= j <= |t|
    ensures (t + r)[..i] == t[..i] && (t + r)[j..] == t[j..] + r
  {}

  // ---- A protected value ----

  /** The value is protected by the URL that starts at `q`. */
  predicate ProtectedFrom(v: string, q: nat) {
    q < |v| && OpenUser(v[q..]) && (forall k :: 0 <= k < |v| ==> !OpenPassword(v[k..])) && !OpenColon(v)
  }

  /** A URL that starts in the value, and has its password in it, ends in front of `q`. */
  lemma TameInValue(v: string, r: string, q: nat, k: nat, i: nat, j: nat)
    requires ProtectedFrom(v, q) && k < |v| && UrlMatch(v[k..] + r) == Some((i, j))
    ensures k + i > |v| || k + j <= q
  {
    var t := v[k..];
    if i <= |t| {
      if j < |t| {
        assert v[k + j] == t[j] == (t + r)[j];
        AtInFront(v, q, k + j);
      } else {
        PasswordIsOpen(t, r, SchemeEnd(t + r), i - 1, j);
      }
    }
  }

  lemma PasswordIsOpen(t: string, r: string, a: nat, b: nat, e: nat)
    requires UrlAt(t + r, a, b, e) && b < |t| <= e
    ensures OpenPassword(t)
  {
    assert forall m :: 0 <= m < |t| ==> (t + r)[m] == t[m];
    RunEndIs(t, 1, a, SchemeChar);
    RunEndIs(t, a + 3, b, UserChar);
    RunEndIs(t, b + 1, |t|, PassChar);
  }

  /** What matters of a query name, the equals sign included. */
  predicate NameLike(h: string) {
    |h| > 1 && Opens(h[0]) && h[|h| - 1] == '=' && forall m :: 1 <= m < |h| ==> NameChar(h[m]) || h[m] == '='
  }

  lemma NoUrlInQueryName(h: string, z: string, k: nat)
    requires k < |h| && NameLike(h)
    ensures UrlMatch(h[k..] + z).None?
  {
    var t := h[k..] + z;
    assert t[0] == h[k] && t[|h| - k - 1] == '=';
    assert forall m :: 0 <= m < |h| - k ==> t[m] == h[k + m];
    assert !SchemeChar(t[|h| - k - 1]);
  }

  lemma ColonInOpen(v: string, q: nat) returns (m: nat)
    requires q < |v| && OpenUser(v[q..])
    ensures m < |v| && v[m] == ':'
  {
    m := q + SchemeEnd(v[q..]);
    assert v[m] == v[q..][m - q];
  }

  /** A URL that starts in front of the query has its user there, or ends in the value in front of `q`. */
  lemma TameInFront(s: string, x: nat, n: nat, v: string, q: nat, i: nat, j: nat)
    requires 0 < x < n && n + |v| <= |s| && (forall l :: 0 <= l < |v| ==> v[l] == s[n + l])
    requires Opens(s[x]) && (forall m :: x <= m < n ==> s[m] != ':' && s[m] != '@')
    requires ProtectedFrom(v, q) && UrlMatch(s) == Some((i, j))
    ensures i <= x || j <= n + q
  {
    if i > x && j > n + q {
      var m := ColonInOpen(v, q);
      SchemeInFront(s, x, SchemeEnd(s), i - 1, j);
      UserBound(s, n, v, i - 1, m);
      if j < n + |v| {
        assert v[j - n] == s[j];
        AtInFront(v, q, j - n);
      } else {
        PasswordOverEnd(s, n, v, i - n, j);
        UserIntoValue(s, n, v, SchemeEnd(s), i - 1, m);
      }
    }
  }

  lemma SchemeInFront(s: string, x: nat, a: nat, b: nat, e: nat)
    requires UrlAt(s, a, b, e) && 0 < x <= b && x < |s| && Opens(s[x])
    ensures a + 3 <= x
  {}

  lemma PasswordOverEnd(s: string, n: nat, v: string, i: nat, e: nat)
    requires n + |v| <= e <= |s| && (forall l :: 0 <= l < |v| ==> v[l] == s[n + l]) && AllIn(s, n + i, e, PassChar)
    requires i <= |v|
    ensures RunEnd(v, i, PassChar) == |v|
  {
    forall l | i <= l < |v| ensures PassChar(v[l]) { assert v[l] == s[n + l]; }
    RunEndIs(v, i, |v|, PassChar);
  }

  lemma UserBound(s: string, n: nat, v: string, b: nat, m: nat)
    requires n + |v| <= |s| && (forall l :: 0 <= l < |v| ==> v[l] == s[n + l]) && m < |v| && v[m] == ':'
    requires n <= b < |s| && AllIn(s, n, b, UserChar)
    ensures b - n <= m
  {}

  lemma UserIntoValue(s: string, n: nat, v: string, a: nat, b: nat, m: nat)
    requires n + |v| <= |s| && (forall l :: 0 <= l < |v| ==> v[l] == s[n + l]) && m < |v| && v[m] == ':'
    requires a + 3 <= n <= b < |s| && AllIn(s, a + 3, b, UserChar) && s[b] == ':'
    ensures b - n <= m && UserEnd(v) == b - n && v[b - n] == ':'
  {
    assert b - n <= m;
    RunEndIs(v, 0, b - n, UserChar);
  }

  /** Whatever is read as a query inside a value ends with it. */
  lemma InnerEnds(u: string, n: nat)
    requires 0 < n <= |u| && AllIn(u, 0, n, ValueChar) && (n < |u| ==> !ValueChar(u[n])) && QueryMatch(u).Some?
    ensures QueryMatch(u).value.1 == n
  {
    var e, j := QueryMatch(u).value.0 - 1, QueryMatch(u).value.1;
    QueryMatchReads();
    ListedNameIsName(ListedName, u, e);
    assert n < |u| ==> !NameChar(u[n]) && u[n] != '=';
    assert e < n;
    assert j <= n;
    assert j < |u| ==> !ValueChar(u[j]);
  }

  lemma CredentialName(h: string, v: string, r: string)
    requires Credential(QueryMatch, h, v, r)
    ensures NameLike(h) && QueryValue(v) && Follows(r)
  {
    QueryMatchReads();
    QueryCredentialShape(QueryMatch, ListedName, h, v, r);
    assert (h + v + r)[|h| - 1] == h[|h| - 1];
  }

  lemma LastInValue(v: string, r: string, k: nat, u: string)
    requires QueryValue(v) && Follows(r) && k < |v| && u == v[k..] + r && QueryMatch(u).Some?
    ensures QueryMatch(u).value.1 == |v| - k
  {
    var t := v[k..];
    forall m | 0 <= m < |t| ensures ValueChar(u[m]) { assert u[m] == t[m] == v[k + m]; }
    assert r != "" ==> u[|t|] == r[0];
    InnerEnds(u, |t|);
  }

  lemma NoQueryInName(h: string, z: string, k: nat)
    requires NameLike(h) && 0 < k < |h|
    ensures QueryMatch(h[k..] + z).None?
  {
    assert (h[k..] + z)[0] == h[k];
  }

  lemma FromName(h: string, v: string, r: string, k: nat)
    requires k <= |h|
    ensures (h + v + r)[k..] == h[k..] + (v + r) && (k == 0 ==> (h + v + r)[k..] == h + v + r)
  {}

  /** In the credential, a query is the credential itself, or starts in its value: it ends with the value. */
  lemma LastInCredential(h: string, v: string, r: string, k: nat)
    requires Credential(QueryMatch, h, v, r) && k < |h| + |v| && QueryMatch((h + v + r)[k..]).Some?
    ensures k + QueryMatch((h + v + r)[k..]).value.1 == |h| + |v|
  {
    CredentialName(h, v, r);
    if k >= |h| {
      FromInside(h, v, r, k - |h|);
      LastInValue(v, r, k - |h|, (h + v + r)[k..]);
    } else {
      OnlyAtName(h, v, r, k);
    }
  }

  lemma OnlyAtName(h: string, v: string, r: string, k: nat)
    requires NameLike(h) && k < |h| && QueryMatch((h + v + r)[k..]).Some?
    ensures k == 0 && (h + v + r)[k..] == h + v + r
  {
    FromName(h, v, r, k);
    if k > 0 {
      NoQueryInName(h, v + r, k);
    }
  }

  lemma PlainOrLastAround(x: string, h: string, v: string, r: string)
    requires Credential(QueryMatch, h, v, r) && PlainAround(x, h, v, r)
    ensures PlainOrLast(x + h + v + r, |x + h + v|) && PlainFront(x + h + v + r, |x|)
  {
    var t := x + h + v + r;
    forall p | 0 <= p <= |t| ensures PlainQueryFrom(t, p) || EndsAt(t, p, |x + h + v|) {
      if |x| <= p < |x + h + v| && QueryMatch(t[p..]).Some? {
        InsideAndBehind(x, h, v, r, p);
        LastInCredential(h, v, r, p - |x|);
      }
    }
  }

  lemma TameAround(x: string, h: string, v: string, r: string, q: nat)
    requires NameLike(h) && ProtectedFrom(v, q)
    ensures Tame(x + h + v, r, |v[q..]|, |x|)
  {
    var w, g := x + h + v, |v[q..]|;
    forall k | 0 <= k < |w| ensures TameAt(w + r, k, |w|, g, |x|) {
      if k < |x| {
        TameFromFront(x, h, v, r, q, k);
      } else if k < |x + h| {
        TameFromName(x, h, v, r, k, g);
      } else {
        TameFromValue(x + h, v, r, q, k, |x|);
      }
    }
  }

  lemma TameFromName(x: string, h: string, v: string, r: string, k: nat, g: nat)
    requires NameLike(h) && |x| <= k < |x + h|
    ensures TameAt(x + h + v + r, k, |x + h + v|, g, |x|)
  {
    BehindInName(x, h, v, r, k);
    NoUrlInQueryName(h, v + r, k - |x|);
  }

  lemma TameFromFront(x: string, h: string, v: string, r: string, q: nat, k: nat)
    requires NameLike(h) && ProtectedFrom(v, q) && k < |x|
    ensures TameAt(x + h + v + r, k, |x + h + v|, |v| - q, |x|)
  {
    var s := (x + h + v + r)[k..];
    if UrlMatch(s).Some? {
      CredentialBehind(x, h, v, r, k);
      TameInFront(s, |x| - k, |x + h| - k, v, q, UrlMatch(s).value.0, UrlMatch(s).value.1);
    }
  }

  lemma TameFromValue(y: string, v: string, r: string, q: nat, k: nat, n: int)
    requires ProtectedFrom(v, q) && |y| <= k < |y + v|
    ensures TameAt(y + v + r, k, |y + v|, |v| - q, n)
  {
    var d := k - |y|;
    var s := (y + v + r)[k..];
    FromInside(y, v, r, d);
    if UrlMatch(s).Some? {
      TameInValue(v, r, q, d, UrlMatch(s).value.0, UrlMatch(s).value.1);
    }
  }

  lemma BehindInName(x: string, h: string, v: string, r: string, k: nat)
    requires |x| <= k <= |x + h|
    ensures (x + h + v + r)[k..] == h[k - |x|..] + (v + r)
  {}

  lemma CredentialBehind(x: string, h: string, v: string, r: string, k: nat)
    requires k < |x| && NameLike(h)
    ensures var s, a, n := (x + h + v + r)[k..], |x| - k, |x + h| - k;
            n + |v| <= |s| && (forall l :: 0 <= l < |v| ==> v[l] == s[n + l])
            && Opens(s[a]) && forall m :: a <= m < n ==> s[m] != ':' && s[m] != '@'
  {
    var t := x + h + v + r;
    var s := t[k..];
    SuffixBehind(x, h, v, r, k);
    LayersOf(x[k..] + h, v, r);
    forall m | |x| - k <= m < |x + h| - k ensures s[m] == h[m - (|x| - k)] {}
  }

  /** A protected value is safe. */
  lemma ProtectedIsSafe(marker: string, v: string)
    requires IsMarker(marker) && Plain(marker) && QueryValue(v) && Protected(v)
    ensures SafeInText(marker, v)
  {
    var q: nat :| q < |v| && OpenUser(v[q..]);
    forall x, h, r | Credential(QueryMatch, h, v, r) && PlainAround(x, h, v, r)
      ensures Clean(UrlMatch, marker, Out(marker, x + h + v + r))
    {
      ProtectedPasses(marker, x, h, v, r, q);
    }
  }

  lemma ProtectedPasses(marker: string, x: string, h: string, v: string, r: string, q: nat)
    requires IsMarker(marker) && Plain(marker) && ProtectedFrom(v, q)
    requires Credential(QueryMatch, h, v, r) && PlainAround(x, h, v, r)
    ensures Clean(UrlMatch, marker, Out(marker, x + h + v + r))
  {
    PassingAround(x, h, v, r, q);
    PassedIsClean(marker, x + h + v, r, v[q..], |x|);
  }

  lemma PassingAround(x: string, h: string, v: string, r: string, q: nat)
    requires ProtectedFrom(v, q) && Credential(QueryMatch, h, v, r) && PlainAround(x, h, v, r)
    ensures Passing("", x + h + v, r, v[q..], |x|)
  {
    var w, g := x + h + v, v[q..];
    CredentialName(h, v, r);
    TameAround(x, h, v, r, q);
    PlainOrLastAround(x, h, v, r);
    EndOfValue(x + h, v, q);
    PassingAll(w, r, g, |x|);
  }

  lemma PassingAll(w: string, r: string, g: string, n: nat)
    requires OpenUser(g) && |g| <= |w| && w[|w| - |g|..] == g && PlainOrLast(w + r, |w|)
    requires Tame(w, r, |g|, n) && PlainFront(w + r, n)
    ensures Passing("", w, r, g, n)
  {
    NothingAdded(w);
  }

  lemma PassedIsClean(marker: string, w: string, r: string, g: string, n: int)
    requires IsMarker(marker) && Plain(marker) && Passing("", w, r, g, n)
    ensures Clean(UrlMatch, marker, Out(marker, w + r))
  {
    UrlsPass(marker, "", w, r, g, n);
    NothingAdded(w);
    NothingAdded(UrlsReplaced(marker, w + r));
    HarmlessIsClean(marker, w + r);
  }

  lemma EndOfValue(y: string, v: string, q: nat)
    requires q <= |v|
    ensures (y + v)[|y + v| - |v[q..]|..] == v[q..]
  {}

  /** Whatever is read as a query inside a plain value is plain. */
  lemma PlainInside(h: string, v: string, r: string, p: nat)
    requires Credential(QueryMatch, h, v, r) && Plain(v) && p < |h| + |v|
    ensures PlainQueryFrom(h + v + r, p)
  {
    var s := h + v + r;
    QueryMatchReads();
    QueryCredentialShape(QueryMatch, ListedName, h, v, r);
    if p == 0 {
      assert s[0..] == s && s[|h|..|h| + |v|] == v;
    } else if QueryMatch(s[p..]).Some? {
      InnerValue(h, v, r, p);
    }
  }

  lemma InnerValue(h: string, v: string, r: string, p: nat)
    requires Plain(v) && Follows(r) && 0 < p < |h| + |v| && QueryMatch((h + v + r)[p..]).Some?
    requires forall k :: 1 <= k < |h| ==> !Opens(h[k])
    ensures PlainQueryFrom(h + v + r, p)
  {
    var s := h + v + r;
    var u := s[p..];
    assert forall k :: 0 <= k < |h| ==> s[k] == h[k];
    assert u[0] == s[p];
    var n := |h| + |v| - p;
    forall k | 0 <= k < n ensures u[k] == v[p - |h| + k] { assert u[k] == s[p + k]; }
    assert r != "" ==> u[n] == r[0];
    forall k | 0 <= k < n ensures ValueChar(u[k]) && u[k] != '@' && u[k] != ':' && u[k] != '/' {}
    PlainStart(u, n);
  }

  /** A query that starts in front of `n`, in a text with plain characters up to there, has a plain value. */
  lemma PlainStart(u: string, n: nat)
    requires 0 < n <= |u| && (n < |u| ==> !ValueChar(u[n])) && QueryMatch(u).Some?
    requires forall k :: 0 <= k < n ==> ValueChar(u[k]) && u[k] != '@' && u[k] != ':' && u[k] != '/'
    ensures Plain(u[QueryMatch(u).value.0..QueryMatch(u).value.1])
  {
    var e, j := QueryMatch(u).value.0 - 1, QueryMatch(u).value.1;
    QueryMatchReads();
    ListedNameIsName(ListedName, u, e);
    assert n < |u| ==> !NameChar(u[n]) && u[n] != '=';
    assert e < n;
    assert j <= n;
    var w := u[e + 1..j];
    assert forall k :: 0 <= k < |w| ==> w[k] == u[e + 1 + k];
  }

  lemma PlainIsSafe(marker: string, v: string)
    requires IsMarker(marker) && Plain(marker) && Plain(v)
    ensures SafeInText(marker, v)
  {
    forall x, h, r | Credential(QueryMatch, h, v, r) && PlainAround(x, h, v, r)
      ensures Clean(UrlMatch, marker, Out(marker, x + h + v + r))
    {
      forall p | 0 <= p <= |x + h + v + r| ensures PlainQueryFrom(x + h + v + r, p) {
        if |x| <= p < |x + h + v| {
          PlainInside(h, v, r, p - |x|);
          InsideAndBehind(x, h, v, r, p);
          SameQueryFrom(h + v + r, x + h + v + r, p - |x|, p);
        }
      }
      PlainTextIsClean(marker, x + h + v + r);
    }
  }
}
