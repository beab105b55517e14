/**
 * URL passwords in the final text. The first replacement marks them all, but the second one can turn
 * a text that was no URL credential into one: with a slash in a query value gone, a user name goes
 * on up to a colon behind it.
 */
module ScrubUrlPasswords {
  import opened Text
  import opened Replace
  import opened Scrub
  import opened ScrubExact

  // ---- A password that is uncovered ----

  lemma NoColonNoUrl(h: string, v: string, r: string)
    requires TokenName(h) && Closing(r) && forall k :: 0 <= k < |v| ==> v[k] != ':'
    ensures NoUrl(h + v + r)
  {
    var t := h + v + r;
    forall k | 0 <= k < |t| - 3 ensures t[k] != ':' {
      assert t[k] == if k < |h| then h[k] else if k < |h + v| then v[k - |h|] else r[k - |h + v|];
    }
    assert t[|t| - 3] == r[1] && t[|t| - 2] == r[2] && t[|t| - 1] == r[3];
    forall p | 0 <= p < |t| ensures NoneAt(UrlMatch, t, p) {
      assert forall k :: 0 <= k < |t[p..]| ==> t[p..][k] == t[p + k];
    }
  }

  lemma ClosingOut(marker: string, x: string, h: string, v: string, r: string)
    requires TokenName(h) && QueryValue(v) && Closing(r) && NoUrl(x + h + v + r)
             && forall p :: 0 <= p < |x| ==> !Opens(x[p])
    ensures Out(marker, x + h + v + r) == x + (h + marker + r)
  {
    NoUrlKept(marker, x + h + v + r);
    TokenReplaced(marker, x, h, v, r);
    TailKept(marker, r);
  }

  /** A value with a slash, no colon and no `@`: with the slash gone, `p` is a password, and is not marked. */
  lemma SlashUncoversPassword(marker: string, x: string, h: string, v: string, r: string, i: nat)
    requires Bracketed(marker) && UserStart(x) && TokenName(h) && QueryValue(v) && Closing(r)
    requires i < |v| && v[i] == '/' && (forall k :: 0 <= k < i ==> UserChar(v[k]))
             && forall k :: 0 <= k < |v| ==> v[k] != ':'
    ensures var out := Out(marker, x + h + v + r);
            UrlMatch(out).Some? && out[UrlMatch(out).value.0..UrlMatch(out).value.1] == "p"
  {
    NoColonNoUrl(h, v, r);
    SlashStopsUser(x, h, v, r, i);
    ClosingOut(marker, x, h, v, r);
    UserThroughMarker(marker, x, h, r);
  }

  lemma UserThroughMarker(marker: string, x: string, h: string, r: string)
    requires Bracketed(marker) && UserStart(x) && TokenName(h) && Closing(r)
    ensures var out := x + (h + marker + r);
            UrlMatch(out).Some? && out[UrlMatch(out).value.0..UrlMatch(out).value.1] == "p"
  {
    var out, b := x + h + marker + r, 13 + |marker|;
    assert out == x + (h + marker + r);
    InTheMiddle(x + h, marker, r);
    assert forall k :: 12 + |marker| <= k < |out| ==> out[k] == r[k - 12 - |marker|];
    UrlOverQuery(x, h, marker, r, b);
    assert out[b + 1..|out| - 1] == [r[2]];
  }

  /** `s://u?token=/&:p@` becomes `s://u?token=[redacted]&:p@`. */
  lemma UncoveredPassword()
    ensures var out := ScrubSecretsFromText("s://u" + NAME + "/" + TAIL);
            UrlMatch(out).Some? && out[UrlMatch(out).value.0..UrlMatch(out).value.1] != REDACTED
  {
    SamplesFit();
    MarkerIsBracketed();
    SlashUncoversPassword(REDACTED, "s://u", NAME, "/", TAIL, 0);
    OutIsScrubbed("s://u" + NAME + "/" + TAIL);
  }

  // ---- Which values uncover a password ----

  /** `v` stands in for a plain value without harm: in a text with all URL passwords marked, they stay so. */
  ghost predicate NeverUncovers(marker: string, v: string) {
    forall x, h, r :: Credential(QueryMatch, h, v, r) && Clean(UrlMatch, marker, x + h + v + r) ==>
      Clean(UrlMatch, marker, x + h + marker + r)
  }

  /** Where a user name that goes on into the value ends. */
  function UserEnd(v: string): nat { RunEnd(v, 0, UserChar) }

  /**
   * The value ends a user name that goes on up to it, without making a credential of it: at a slash,
   * an `@`, or a colon with no password, or the marker, in front of an `@`.
   */
  predicate Blocks(marker: string, v: string) {
    var f := UserEnd(v);
    f < |v| &&
    (v[f] != ':' ||
     var g := RunEnd(v, f + 1, PassChar);
     g < |v| && (g == f + 1 || v[f + 1..g] == marker))
  }

  /** A URL is read from the start of `t` on, and has reached its user or its password when `t` ends. */
  predicate Unfinished(t: string) {
    var a := SchemeEnd(t);
    t != "" && IsLetter(t[0]) && a + 3 <= |t| && t[a] == ':' && t[a + 1] == '/' && t[a + 2] == '/' &&
    var b := RunEnd(t, a + 3, UserChar);
    b == |t| || (a + 3 < b && t[b] == ':' && RunEnd(t, b + 1, PassChar) == |t|)
  }

  /** Every URL that starts in the value ends in it too, as no credential or with the marker. */
  predicate Settled(marker: string, v: string) {
    forall q :: 0 <= q < |v| ==> SettledAt(marker, v, q)
  }

  predicate SettledAt(marker: string, v: string, q: nat)
    requires q <= |v|
  {
    !Unfinished(v[q..]) && CleanFrom(UrlMatch, marker, v, q)
  }

  predicate Uncovers(marker: string, v: string) { Blocks(marker, v) && Settled(marker, v) }

  // ---- Reading on behind a value ----

  lemma RunStops(t: string, r: string, i: nat, cls: char -> bool)
    requires i <= |t|
    ensures RunEnd(t, i, cls) < |t| ==> RunEnd(t + r, i, cls) == RunEnd(t, i, cls)
    ensures RunEnd(t, i, cls) == |t| && (r == "" || !cls(r[0])) ==> RunEnd(t + r, i, cls) == |t|
  {
    var j := RunEnd(t, i, cls);
    assert forall k :: 0 <= k < |t| ==> (t + r)[k] == t[k];
    if j < |t| || r == "" || !cls(r[0]) {
      RunEndIs(t + r, i, j, cls);
    }
  }

  /** A URL that is finished is read the same when the value ends and a text follows. */
  lemma FinishedStays(t: string, r: string)
    requires t != "" && Follows(r) && !Unfinished(t)
    ensures UrlMatch(t + r) == UrlMatch(t)
  {
    var s, a := t + r, SchemeEnd(t);
    assert forall k :: 0 <= k < |t| ==> s[k] == t[k];
    assert r != "" ==> s[|t|] == r[0];
    RunStops(t, r, 1, SchemeChar);
    if IsLetter(t[0]) && a + 3 <= |t| && t[a] == ':' && t[a + 1] == '/' && t[a + 2] == '/' {
      FinishedUserStays(t, r, a);
    }
  }

  lemma FinishedUserStays(t: string, r: string, a: nat)
    requires t != "" && IsLetter(t[0]) && a == SchemeEnd(t) && a == SchemeEnd(t + r) && !Unfinished(t)
    requires a + 3 <= |t| && t[a] == ':' && t[a + 1] == '/' && t[a + 2] == '/'
    ensures UrlMatch(t + r) == UrlMatch(t)
  {
    assert forall k :: 0 <= k < |t| ==> (t + r)[k] == t[k];
    RunStops(t, r, a + 3, UserChar);
    var b := RunEnd(t, a + 3, UserChar);
    if a + 3 < b && t[b] == ':' {
      RunStops(t, r, b + 1, PassChar);
    }
  }

  /** `&`, and then the rest of a user, a colon at `c`, and a password up to the `@` at `d`. */
  predicate Continues(r: string, c: nat, d: nat) {
    1 <= c && c + 1 < d < |r| && r[0] == '&'
    && AllIn(r, 0, c, UserChar) && r[c] == ':' && AllIn(r, c + 1, d, PassChar) && r[d] == '@'
  }

  /** From the start of `y` on, a scheme up to `a`, and then a user that goes on to the end. */
  predicate OpensUser(y: string, a: nat) {
    1 <= a && a + 3 <= |y| && IsLetter(y[0]) && AllIn(y, 1, a, SchemeChar)
    && y[a] == ':' && y[a + 1] == '/' && y[a + 2] == '/' && AllIn(y, a + 3, |y|, UserChar)
  }

  /** From the start of `y` on, a scheme, a user up to `b`, and then a password that goes on to the end. */
  predicate OpensPassword(y: string, a: nat, b: nat) {
    1 <= a && a + 3 < b < |y| && IsLetter(y[0]) && AllIn(y, 1, a, SchemeChar)
    && y[a] == ':' && y[a + 1] == '/' && y[a + 2] == '/' && AllIn(y, a + 3, b, UserChar)
    && y[b] == ':' && AllIn(y, b + 1, |y|, PassChar)
  }

  lemma UserGoesOn(y: string, r: string, a: nat, c: nat, d: nat)
    requires OpensUser(y, a) && Continues(r, c, d)
    ensures UrlMatch(y + r) == Some((|y| + c + 1, |y| + d)) && (y + r)[|y| + c + 1..|y| + d] == r[c + 1..d]
  {
    var s := y + r;
    assert forall k :: 0 <= k < |s| ==> s[k] == if k < |y| then y[k] else r[k - |y|];
    UrlMatchComplete(s, a, |y| + c, |y| + d);
  }

  lemma PasswordGoesOn(marker: string, y: string, r: string, a: nat, b: nat, c: nat, d: nat)
    requires OpensPassword(y, a, b) && Continues(r, c, d) && IsMarker(marker)
    ensures UrlMatch(y + r) == Some((b + 1, |y| + RunEnd(r, 0, PassChar)))
    ensures (y + r)[b + 1..|y| + RunEnd(r, 0, PassChar)] != marker
  {
    var s := y + r;
    assert forall k :: 0 <= k < |s| ==> s[k] == if k < |y| then y[k] else r[k - |y|];
    forall k | 0 <= k < d ensures PassChar(r[k]) {}
    RunEndIs(r, 0, d, PassChar);
    UrlMatchComplete(s, a, b, |y| + d);
    MarkerHoldsNoQuery(marker, s, b + 1, |y| + d, |y|);
  }

  /** A URL that is unfinished reads on to the same password, or to one that is not marked. */
  lemma UnfinishedReadsOn(marker: string, t: string, r: string, c: nat, d: nat)
    requires Unfinished(t) && Continues(r, c, d) && IsMarker(marker)
    ensures CleanAt(UrlMatch, marker, t + r) ==> r[c + 1..d] == marker
  {
    var a := SchemeEnd(t);
    var b := RunEnd(t, a + 3, UserChar);
    if b == |t| {
      UserGoesOn(t, r, a, c, d);
    } else {
      if b + 1 == |t| {
        assert OpensPassword(t, a, b);
      }
      PasswordGoesOn(marker, t, r, a, b, c, d);
    }
  }

  /** A match of a clean text that reaches over the query would have to hold the marker, which has no `?` or `&`. */
  lemma MarkerHoldsNoQuery(marker: string, t: string, i: nat, j: nat, x: nat)
    requires IsMarker(marker) && i <= x < j <= |t| && Opens(t[x])
    ensures t[i..j] != marker
  {
    assert t[i..j][x - i] == t[x];
  }

  // ---- A value that is no danger ----

  lemma PlainOpensUser(y: string, v: string, a: nat)
    requires OpensUser(y, a) && QueryValue(v) && UserEnd(v) == |v|
    ensures OpensUser(y + v, a)
  {
    var yv := y + v;
    assert forall k :: 0 <= k < |y| ==> yv[k] == y[k];
    forall k | a + 3 <= k < |yv| ensures UserChar(yv[k]) {
      assert yv[k] == if k < |y| then y[k] else v[k - |y|];
    }
  }

  lemma ColonOpensPassword(y: string, v: string, a: nat)
    requires OpensUser(y, a) && a + 3 < |y| && QueryValue(v) && UserEnd(v) < |v| && v[UserEnd(v)] == ':'
    requires RunEnd(v, UserEnd(v) + 1, PassChar) == |v|
    ensures OpensPassword(y + v, a, |y| + UserEnd(v))
  {
    var yv, f := y + v, UserEnd(v);
    assert forall k :: 0 <= k < |y| ==> yv[k] == y[k];
    forall k | a + 3 <= k < |y| + f ensures UserChar(yv[k]) {
      assert yv[k] == if k < |y| then y[k] else v[k - |y|];
    }
    forall k | |y| + f + 1 <= k < |yv| ensures PassChar(yv[k]) { assert yv[k] == v[k - |y|]; }
  }

  /** `s` starts with `y`, and then with `v`. */
  predicate Layers(s: string, y: string, v: string) {
    |s| >= |y| + |v| && (forall k :: 0 <= k < |y| ==> s[k] == y[k]) && forall k :: 0 <= k < |v| ==> v[k] == s[|y| + k]
  }

  lemma LayersOf(y: string, v: string, r: string)
    ensures Layers(y + v + r, y, v)
  {}

  lemma RunInLayer(s: string, y: string, v: string, i: nat, cls: char -> bool)
    requires Layers(s, y, v) && i <= |v| && RunEnd(v, i, cls) < |v|
    ensures RunEnd(s, |y| + i, cls) == |y| + RunEnd(v, i, cls) && s[|y| + RunEnd(v, i, cls)] == v[RunEnd(v, i, cls)]
  {
    var j := RunEnd(v, i, cls);
    forall k | |y| + i <= k < |y| + j ensures cls(s[k]) { assert s[k] == v[k - |y|]; }
    assert v[j] == s[|y| + j];
    RunEndIs(s, |y| + i, |y| + j, cls);
  }

  /** From the start of `s` on, a scheme up to `a`, and then a user up to `b`. */
  predicate UserRead(s: string, a: nat, b: nat) {
    s != "" && IsLetter(s[0]) && a == SchemeEnd(s) && a + 3 <= b < |s|
    && s[a] == ':' && s[a + 1] == '/' && s[a + 2] == '/' && b == RunEnd(s, a + 3, UserChar)
  }

  /** A user name that goes on into the value ends at its first odd character. */
  lemma UserInto(s: string, y: string, v: string, a: nat)
    requires OpensUser(y, a) && UserEnd(v) < |v| && Layers(s, y, v)
    ensures UserRead(s, a, |y| + UserEnd(v)) && s[|y| + UserEnd(v)] == v[UserEnd(v)]
    ensures v[UserEnd(v)] != ':' ==> UrlMatch(s).None?
  {
    var c := |y| + UserEnd(v);
    RunInLayer(s, y, v, 0, UserChar);
    assert forall k :: 0 <= k < |y| ==> s[k] == y[k];
    RunEndIs(s, 1, a, SchemeChar);
    RunEndIs(s, a + 3, c, UserChar);
  }

  lemma UrlFromEnds(s: string, a: nat, b: nat, e: nat)
    requires UserRead(s, a, b) && a + 3 < b < e < |s| && s[b] == ':' && e == RunEnd(s, b + 1, PassChar) && s[e] == '@'
    ensures UrlMatch(s) == if e == b + 1 then None else Some((b + 1, e))
  {}

  lemma PasswordStops(v: string, i: nat)
    requires QueryValue(v) && i <= |v| && RunEnd(v, i, PassChar) < |v|
    ensures v[RunEnd(v, i, PassChar)] == '@'
  {
    assert ValueChar(v[RunEnd(v, i, PassChar)]);
  }

  /** If that is a colon, and the password behind it ends in the value too, it is read there. */
  lemma PasswordInto(s: string, y: string, v: string, a: nat, f: nat, g: nat)
    requires OpensUser(y, a) && a + 3 < |y| && QueryValue(v) && f == UserEnd(v) && f < |v| && v[f] == ':'
    requires g == RunEnd(v, f + 1, PassChar) && g < |v| && Layers(s, y, v)
    ensures UrlMatch(s) == if g == f + 1 then None else Some((|y| + (f + 1), |y| + g))
  {
    UserInto(s, y, v, a);
    RunInLayer(s, y, v, f + 1, PassChar);
    PasswordStops(v, f + 1);
    UrlFromEnds(s, a, |y| + f, |y| + g);
  }

  lemma ReadInLayer(marker: string, s: string, y: string, v: string, i: nat, j: nat)
    requires Layers(s, y, v) && i <= j <= |v| && UrlMatch(s) == if j == i then None else Some((|y| + i, |y| + j))
    ensures CleanAt(UrlMatch, marker, s) <==> j == i || v[i..j] == marker
  {
    assert s[|y| + i..|y| + j] == v[i..j];
  }

  lemma ColonRead(marker: string, s: string, y: string, v: string, a: nat, f: nat, g: nat)
    requires OpensUser(y, a) && a + 3 < |y| && QueryValue(v) && f == UserEnd(v) && f < |v| && v[f] == ':'
    requires g == RunEnd(v, f + 1, PassChar) && g < |v| && Layers(s, y, v)
    ensures CleanAt(UrlMatch, marker, s) <==> g == f + 1 || v[f + 1..g] == marker
  {
    PasswordInto(s, y, v, a, f, g);
    ReadInLayer(marker, s, y, v, f + 1, g);
  }

  /** A user name that goes on through a value which does not block it: the same password, or one that is not marked. */
  lemma NotBlockedReadsOn(marker: string, y: string, v: string, r: string, a: nat, c: nat, d: nat)
    requires OpensUser(y, a) && a + 3 < |y| && QueryValue(v) && Continues(r, c, d) && IsMarker(marker)
             && !Blocks(marker, v)
    ensures CleanAt(UrlMatch, marker, y + v + r) ==> r[c + 1..d] == marker
  {
    var f := UserEnd(v);
    if f == |v| {
      PlainOpensUser(y, v, a);
      UserGoesOn(y + v, r, a, c, d);
    } else {
      var g := RunEnd(v, f + 1, PassChar);
      if g == |v| {
        ColonOpensPassword(y, v, a);
        PasswordGoesOn(marker, y + v, r, a, |y| + f, c, d);
      } else {
        LayersOf(y, v, r);
        ColonRead(marker, y + v + r, y, v, a, f, g);
      }
    }
  }

  /** A user name that goes on through a value which is not settled: the same. */
  lemma NotSettledReadsOn(marker: string, y: string, v: string, r: string, c: nat, d: nat)
    requires QueryValue(v) && Follows(r) && Continues(r, c, d) && IsMarker(marker) && !Settled(marker, v)
    requires Clean(UrlMatch, marker, y + v + r)
    ensures r[c + 1..d] == marker
  {
    var q :| 0 <= q < |v| && !SettledAt(marker, v, q);
    FromInside(y, v, r, q);
    assert CleanFrom(UrlMatch, marker, y + v + r, |y| + q);
    if Unfinished(v[q..]) {
      UnfinishedReadsOn(marker, v[q..], r, c, d);
    } else {
      FinishedStays(v[q..], r);
      SameStart(v[q..], r);
    }
  }

  lemma FromInside(y: string, v: string, r: string, q: nat)
    requires q <= |v|
    ensures (y + v + r)[|y| + q..] == v[q..] + r
  {}

  lemma SameStart(t: string, r: string)
    ensures forall i, j :: 0 <= i <= j <= |t| ==> (t + r)[i..j] == t[i..j]
  {}

  /** What follows a query value in which a user name goes on to a colon at `b` and a password up to `e`. */
  lemma UserOverQuery(marker: string, x: string, h: string, r: string, a: nat, b: nat, e: nat)
    requires UrlAt(x + h + marker + r, a, b, e) && a + 3 <= |x| && b >= |x + h| + |marker| && Follows(r) && h != ""
    ensures var k := |x + h| + |marker|;
            OpensUser(x + h, a) && a + 3 < |x + h| && Continues(r, b - k, e - k)
            && (x + h + marker + r)[b + 1..e] == r[b - k + 1..e - k]
  {
    var u, y, k := x + h + marker + r, x + h, |x + h| + |marker|;
    assert forall i :: 0 <= i < |y| ==> u[i] == y[i];
    assert forall i :: k <= i < |u| ==> u[i] == r[i - k];
    assert r[0] == u[k] && ValueChar(u[b]);
    assert b > k && UserChar(u[k]);
    forall i | 0 <= i < b - k ensures UserChar(r[i]) { assert r[i] == u[i + k]; }
    forall i | b - k + 1 <= i < e - k ensures PassChar(r[i]) { assert r[i] == u[i + k]; }
    forall i | a + 3 <= i < |y| ensures UserChar(y[i]) { assert y[i] == u[i]; }
    forall i | 1 <= i < a ensures SchemeChar(y[i]) { assert y[i] == u[i]; }
    assert u == y + marker + r;
  }

  /** A password that goes on into a query value ends there, or at the next `@` behind it. */
  lemma RunOverValue(t: string, i: nat, n: nat, k: nat, d: nat) returns (e: nat)
    requires i < n <= k <= d < |t| && t[d] == '@'
    requires AllIn(t, i, n, PassChar) && AllIn(t, n, k, ValueChar) && AllIn(t, k, d, PassChar)
    ensures n <= e < |t| && AllIn(t, i, e, PassChar) && t[e] == '@'
  {
    e := RunEnd(t, i, PassChar);
    assert n <= e <= d;
  }

  /** A password that goes on over the query: in the other text one does too. */
  lemma PasswordOverValue(t: string, u: string, n: nat, k: nat, k': nat, a: nat, b: nat, e: nat) returns (e': nat)
    requires Matching(t, u, n, k, k') && UrlAt(u, a, b, e) && b + 1 < n && e >= k' && AllIn(t, n, k, ValueChar)
    ensures n <= e' && UrlAt(t, a, b, e')
  {
    assert forall i :: 0 <= i < n ==> t[i] == u[i];
    forall i | k <= i <= e - k' + k ensures t[i] == u[i - k + k'] {}
    e' := RunOverValue(t, b + 1, n, k, e - k' + k);
  }

  lemma PasswordOverQuery(marker: string, t: string, a: nat, b: nat, e: nat, x: nat)
    requires IsMarker(marker) && UrlAt(t, a, b, e) && b < x < e && Opens(t[x])
    ensures !CleanAt(UrlMatch, marker, t)
  {
    UrlMatchComplete(t, a, b, e);
    MarkerHoldsNoQuery(marker, t, b + 1, e, x);
  }

  /** A URL that ends before the query is there in the other text too. */
  lemma UrlBeforeQuery(marker: string, t: string, u: string, n: nat, k: nat, k': nat, a: nat, b: nat, e: nat)
    requires Matching(t, u, n, k, k') && UrlAt(u, a, b, e) && e < n && CleanAt(UrlMatch, marker, t)
    ensures u[b + 1..e] == marker
  {
    assert forall i :: 0 <= i < n ==> t[i] == u[i];
    UrlMatchComplete(t, a, b, e);
    assert t[b + 1..e] == u[b + 1..e];
  }

  /** A user name that goes on over the marker: unless the value uncovers passwords, its password is marked. */
  lemma UserIsSafe(marker: string, x: string, h: string, v: string, r: string, a: nat, b: nat, e: nat)
    requires IsMarker(marker) && QueryValue(v) && Follows(r) && h != "" && !Uncovers(marker, v)
    requires Clean(UrlMatch, marker, x + h + v + r)
    requires UrlAt(x + h + marker + r, a, b, e) && a + 3 <= |x| && b >= |x + h| + |marker|
    ensures (x + h + marker + r)[b + 1..e] == marker
  {
    var k := |x + h| + |marker|;
    UserOverQuery(marker, x, h, r, a, b, e);
    if Blocks(marker, v) {
      NotSettledReadsOn(marker, x + h, v, r, b - k, e - k);
    } else {
      CleanAtStart(marker, x + h + v + r);
      NotBlockedReadsOn(marker, x + h, v, r, a, b - k, e - k);
    }
  }

  lemma CleanAtStart(marker: string, t: string)
    requires Clean(UrlMatch, marker, t)
    ensures CleanAt(UrlMatch, marker, t)
  {
    assert CleanFrom(UrlMatch, marker, t, 0) && t[0..] == t;
  }

  lemma QueryParts(marker: string, h: string, v: string, r: string)
    requires Plain(marker) && Credential(QueryMatch, h, v, r)
    ensures QueryValue(v) && Follows(r) && h != "" && Credential(QueryMatch, h, marker, r)
  {
    QueryMatchReads();
    QueryStable(QueryMatch, ListedName);
    QueryCredentialShape(QueryMatch, ListedName, h, v, r);
    MarkedCredential(QueryMatch, QueryValue, marker, h, v, r, r);
  }

  lemma QueryStarts(x: string, h: string, v: string, r: string)
    requires Credential(QueryMatch, h, v, r)
    ensures Opens((x + h + v + r)[|x|]) && forall i :: 0 <= i < |v| ==> (x + h + v + r)[|x + h| + i] == v[i]
  {
    QueryMatchReads();
    QueryCredentialShape(QueryMatch, ListedName, h, v, r);
    Layout(x, h, v, r);
    InTheMiddle(x + h, v, r);
  }

  lemma MatchingAround(y: string, v: string, w: string, r: string)
    ensures Matching(y + v + r, y + w + r, |y|, |y| + |v|, |y| + |w|)
  {}

  /** A URL that starts before the query: marked, unless the value uncovers passwords. */
  lemma SafeBefore(marker: string, x: string, h: string, v: string, r: string)
    requires x != "" && IsMarker(marker) && Plain(marker) && Credential(QueryMatch, h, v, r) && !Uncovers(marker, v)
    requires Clean(UrlMatch, marker, x + h + v + r)
    ensures CleanAt(UrlMatch, marker, x + h + marker + r)
  {
    var u := x + h + marker + r;
    if UrlMatch(u).Some? {
      var a, b, e := SchemeEnd(u), UrlMatch(u).value.0 - 1, UrlMatch(u).value.1;
      SafeUrl(marker, x, h, v, r, a, b, e);
    }
  }

  lemma SafeUrl(marker: string, x: string, h: string, v: string, r: string, a: nat, b: nat, e: nat)
    requires x != "" && IsMarker(marker) && Plain(marker) && Credential(QueryMatch, h, v, r) && !Uncovers(marker, v)
    requires Clean(UrlMatch, marker, x + h + v + r) && UrlAt(x + h + marker + r, a, b, e)
    ensures (x + h + marker + r)[b + 1..e] == marker
  {
    QueryParts(marker, h, v, r);
    UrlAroundMarker(marker, x, h, r, a, b, e);
    if b >= |x| {
      UserIsSafe(marker, x, h, v, r, a, b, e);
    } else {
      SafeEarlyUrl(marker, x, h, v, r, a, b, e);
    }
  }

  lemma UrlAroundMarker(marker: string, x: string, h: string, r: string, a: nat, b: nat, e: nat)
    requires x != "" && Plain(marker) && Credential(QueryMatch, h, marker, r) && UrlAt(x + h + marker + r, a, b, e)
    ensures a + 3 <= |x| && (b < |x| || b >= |x + h| + |marker|) && (e < |x| || e >= |x + h| + |marker|)
  {
    PlainLayout(x, h, marker, r);
    UrlStepsOverQuery(x + h + marker + r, |x|, |x + h|, |x + h| + |marker|, a, b, e);
  }

  lemma SafeEarlyUrl(marker: string, x: string, h: string, v: string, r: string, a: nat, b: nat, e: nat)
    requires IsMarker(marker) && Credential(QueryMatch, h, v, r) && QueryValue(v) && h != ""
    requires Clean(UrlMatch, marker, x + h + v + r) && UrlAt(x + h + marker + r, a, b, e)
    requires b < |x| && (e < |x| || e >= |x + h| + |marker|)
    ensures (x + h + marker + r)[b + 1..e] == marker
  {
    CleanAtStart(marker, x + h + v + r);
    MatchingAround(x + h, v, marker, r);
    QueryStarts(x, h, v, r);
    EarlyUrl(marker, x + h + v + r, x + h + marker + r, |x|, |x + h|, v, |x + h| + |marker|, a, b, e);
  }

  /** A URL whose user ends before the query: its password ends there too, and is marked. */
  lemma EarlyUrl(marker: string, t: string, u: string, x: nat, n: nat, v: string, k': nat, a: nat, b: nat, e: nat)
    requires IsMarker(marker) && x < n && Matching(t, u, n, n + |v|, k') && Opens(t[x]) && QueryValue(v)
    requires forall i :: 0 <= i < |v| ==> t[n + i] == v[i]
    requires UrlAt(u, a, b, e) && b < x && (e < x || e >= k') && CleanAt(UrlMatch, marker, t)
    ensures u[b + 1..e] == marker
  {
    if e < x {
      UrlBeforeQuery(marker, t, u, n, n + |v|, k', a, b, e);
    } else {
      forall i | n <= i < n + |v| ensures ValueChar(t[i]) { assert t[i] == v[i - n]; }
      var e' := PasswordOverValue(t, u, n, n + |v|, k', a, b, e);
      PasswordOverQuery(marker, t, a, b, e', x);
    }
  }

  lemma InsideAndBehind(y: string, h: string, v: string, r: string, p: nat)
    requires |y| <= p <= |y + h + v + r|
    ensures p < |y| + |h| + |v| ==> (y + h + v + r)[p..] == (h + v + r)[p - |y|..]
    ensures p >= |y| + |h| + |v| ==> (y + h + v + r)[p..] == r[p - |y| - |h| - |v|..]
  {}

  lemma SafeAt(marker: string, x: string, h: string, v: string, r: string, p: nat)
    requires IsMarker(marker) && Plain(marker) && Credential(QueryMatch, h, v, r) && !Uncovers(marker, v)
    requires Clean(UrlMatch, marker, x + h + v + r) && p <= |x + h + marker + r|
    ensures CleanFrom(UrlMatch, marker, x + h + marker + r, p)
  {
    if p < |x| {
      CleanSuffix(UrlMatch, marker, x + h + v + r, p);
      SuffixBehind(x, h, v, r, p);
      SuffixBehind(x, h, marker, r, p);
      SafeBefore(marker, x[p..], h, v, r);
    } else {
      InsideAndBehind(x, h, marker, r, p);
      if p < |x| + |h| + |marker| {
        QueryParts(marker, h, v, r);
        NoUrlInsideQuery(h, marker, r, p - |x|);
      } else {
        var q := p - |marker| + |v|;
        InsideAndBehind(x, h, v, r, q);
        assert CleanFrom(UrlMatch, marker, x + h + v + r, q);
      }
    }
  }

  // ---- A value that is a danger ----

  /** The user name that starts before the query gets no password through a value that blocks it, or a marked one. */
  lemma BlockedAtStart(marker: string, x: string, h: string, v: string, r: string)
    requires UserStart(x) && TokenName(h) && QueryValue(v) && Blocks(marker, v)
    ensures CleanAt(UrlMatch, marker, x + h + v + r)
  {
    var y := x + h;
    ProbeOpens(x, h);
    LayersOf(y, v, r);
    BlockedRead(marker, y + v + r, y, v, 1);
  }

  lemma ProbeOpens(x: string, h: string)
    requires UserStart(x) && TokenName(h)
    ensures OpensUser(x + h, 1) && |x + h| == 12
  {
    var y := x + h;
    forall k | 4 <= k < 12 ensures UserChar(y[k]) { assert y[k] == if k < 5 then x[k] else h[k - 5]; }
    assert forall k :: 0 <= k < 5 ==> y[k] == x[k];
  }

  lemma BlockedRead(marker: string, s: string, y: string, v: string, a: nat)
    requires OpensUser(y, a) && a + 3 < |y| && QueryValue(v) && Blocks(marker, v) && Layers(s, y, v)
    ensures CleanAt(UrlMatch, marker, s)
  {
    var f := UserEnd(v);
    if v[f] == ':' {
      ColonRead(marker, s, y, v, a, f, RunEnd(v, f + 1, PassChar));
    } else {
      UserInto(s, y, v, a);
    }
  }

  /** No URL starts inside `?token=`. */
  lemma NoUrlInName(h: string, z: string, p: nat)
    requires TokenName(h) && p < |h|
    ensures UrlMatch((h + z)[p..]).None?
  {
    var t := (h + z)[p..];
    assert forall k :: 0 <= k < |h| - p ==> t[k] == h[p + k];
    assert !SchemeChar(t[|h| - p - 1]);
  }

  /** No URL starts behind the first letter of `s://u?token=`, in front of the value. */
  lemma NoUrlBeforeValue(x: string, h: string, z: string, p: nat)
    requires UserStart(x) && TokenName(h) && 0 < p < 12
    ensures UrlMatch((x + (h + z))[p..]).None?
  {
    var t := x + (h + z);
    if p < 4 {
      assert t[p..][0] == x[p];
    } else if p == 4 {
      LetterThenQuery(t[4..], x[4], h[0]);
    } else {
      DropDrop(t, 5, p - 5);
      SuffixAfter(x, h + z);
      NoUrlInName(h, z, p - 5);
    }
  }

  lemma FourthRegrouped(x: string, h: string, v: string, r: string)
    ensures x + h + v + r == x + (h + (v + r))
  {}

  /** In front of a closing text, a value that is settled has no URL that is not marked. */
  lemma SettledStaysClean(marker: string, v: string, r: string, q: nat)
    requires QueryValue(v) && Settled(marker, v) && Closing(r) && q < |v|
    ensures CleanAt(UrlMatch, marker, v[q..] + r)
  {
    assert SettledAt(marker, v, q);
    FinishedStays(v[q..], r);
    SameStart(v[q..], r);
  }

  /** The text in which a value that blocks and is settled uncovers `p`: all its URL passwords are marked. */
  lemma ProbeIsClean(marker: string, x: string, h: string, v: string, r: string, p: nat)
    requires Bracketed(marker) && UserStart(x) && TokenName(h) && QueryValue(v) && Closing(r) && Uncovers(marker, v)
    requires p <= |x + h + v + r|
    ensures CleanFrom(UrlMatch, marker, x + h + v + r, p)
  {
    var t := x + h + v + r;
    StartOf(x, h, v, r);
    if p == 0 {
      BlockedAtStart(marker, x, h, v, r);
      assert t[0..] == t;
    } else if p < 12 {
      FourthRegrouped(x, h, v, r);
      NoUrlBeforeValue(x, h, v + r, p);
    } else if p < 12 + |v| {
      FromInside(x + h, v, r, p - 12);
      SettledStaysClean(marker, v, r, p - 12);
    } else if p < |t| {
      SuffixAfter(x + h + v, r);
      NoUrlInClosing(t, 12 + |v|, p);
    }
  }

  /**
   * For every query value and any marker like `[redacted]`: exchanging it for the marker can uncover a
   * URL password if and only if it blocks a user name and is settled.
   */
  lemma UncoversExactly(marker: string, v: string)
    requires Bracketed(marker) && Plain(marker) && QueryValue(v)
    ensures NeverUncovers(marker, v) <==> !Uncovers(marker, v)
  {
    if !Uncovers(marker, v) {
      forall x, h, r | Credential(QueryMatch, h, v, r) && Clean(UrlMatch, marker, x + h + v + r)
        ensures Clean(UrlMatch, marker, x + h + marker + r)
      {
        forall p: nat | p <= |x + h + marker + r| ensures CleanFrom(UrlMatch, marker, x + h + marker + r, p) {
          SafeAt(marker, x, h, v, r, p);
        }
      }
    } else {
      ProbeUncovers(marker, "s://u", NAME, v, TAIL);
    }
  }

  lemma ProbeUncovers(marker: string, x: string, h: string, v: string, r: string)
    requires Bracketed(marker) && QueryValue(v) && Uncovers(marker, v)
    requires x == "s://u" && h == NAME && r == TAIL
    ensures !NeverUncovers(marker, v)
  {
    SamplesFit();
    TokenCredential(h, v, r);
    forall p: nat | p <= |x + h + v + r| ensures CleanFrom(UrlMatch, marker, x + h + v + r, p) {
      ProbeIsClean(marker, x, h, v, r, p);
    }
    assert Clean(UrlMatch, marker, x + h + v + r);
    UserThroughMarker(marker, x, h, r);
    assert x + (h + marker + r) == x + h + marker + r;
    if Clean(UrlMatch, marker, x + h + marker + r) {
      CleanAtStart(marker, x + h + marker + r);
    }
  }
}
