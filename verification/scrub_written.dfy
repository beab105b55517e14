/**
 * Which query values are not safe to write into a text that is going to be scrubbed, and so which
 * ones are, exactly.
 */
module ScrubWritten {
  import opened Text
  import opened Replace
  import opened Scrub
  import opened ScrubExact
  import opened ScrubUrlPasswords
  import opened ScrubFinal
  import opened ScrubProtected

  // ---- A text that makes a value unsafe ----

  predicate NoQuery(r: string) { forall p :: 0 <= p <= |r| ==> NoneAt(QueryMatch, r, p) }

  lemma ClosingHasNoQuery(r: string)
    requires Closing(r)
    ensures NoQuery(r)
  {
    NoQueryName(r);
    forall p | 0 <= p <= |r| ensures NoneAt(QueryMatch, r, p) {
      if p == 0 {
        assert r[0..] == r;
      } else if p < |r| {
        assert r[p..][0] == r[p];
      }
    }
  }

  /** If the first replacement leaves `v'` for `v`, with the closing text behind it, `p` is a password in the end. */
  lemma UnsafeAt(marker: string, x: string, h: string, v: string, r: string, v': string, r': string)
    requires Bracketed(marker) && UserStart(x) && TokenName(h) && QueryValue(v) && QueryValue(v') && Closing(r')
    requires UrlsReplaced(marker, x + h + v + r) == x + h + v' + r'
    requires Follows(r) && NoQuery(r)
    ensures !SafeInText(marker, v)
  {
    TokenReplaced(marker, x, h, v', r');
    TailKept(marker, r');
    UserThroughMarker(marker, x, h, r');
    TokenCredential(h, v, r);
    ProbeAround(x, h, v, r);
    var out := Out(marker, x + h + v + r);
    if Clean(UrlMatch, marker, out) {
      CleanAtStart(marker, out);
    }
  }

  lemma ProbeAround(x: string, h: string, v: string, r: string)
    requires UserStart(x) && NoQuery(r)
    ensures PlainAround(x, h, v, r)
  {
    var t, n := x + h + v + r, |x + h + v|;
    forall p | 0 <= p <= |t| && (p < |x| || p >= n) ensures PlainQueryFrom(t, p) {
      if p < |x| {
        assert t[p..][0] == x[p];
      } else {
        assert t[p..] == r[p - n..] && NoneAt(QueryMatch, r, p - n);
      }
    }
  }

  /** `&z@`, which ends a password that goes on over the end of a value. */
  predicate Ends(z: string) { |z| == 3 && z[0] == '&' && z[1] == 'z' && z[2] == '@' }

  lemma EndsHasNoQuery(z: string, r: string)
    requires Ends(z) && Closing(r)
    ensures NoQuery(z + r)
  {
    var t := z + r;
    ClosingHasNoQuery(r);
    forall p | 0 <= p <= |t| ensures NoneAt(QueryMatch, t, p) {
      if p == 0 {
        RunEndIs(t, 1, 2, NameChar);
        assert t[0..] == t;
      } else if p < 3 {
        assert t[p..][0] == z[p];
      } else {
        assert t[p..] == r[p - 3..] && NoneAt(QueryMatch, r, p - 3);
      }
    }
  }

  /** Every URL that starts in the text ends in it. */
  predicate AllFinished(t: string) { forall q :: 0 <= q < |t| ==> !Unfinished(t[q..]) }

  lemma FinishedSuffix(t: string, k: nat)
    requires AllFinished(t) && k <= |t|
    ensures AllFinished(t[k..])
  {
    forall q | 0 <= q < |t[k..]| ensures !Unfinished(t[k..][q..]) { DropDrop(t, k, q); }
  }

  lemma RegroupedTail(a: string, m: string, b: string, c: string)
    ensures a + m + (b + c) == a + m + b + c && a + (b + c) == a + b + c
  {}

  /** What comes behind such a text is replaced on its own. */
  lemma {:induction false} ReplacedApart(marker: string, t: string, r: string)
    requires AllFinished(t) && Follows(r)
    ensures UrlsReplaced(marker, t + r) == UrlsReplaced(marker, t) + UrlsReplaced(marker, r)
    decreases |t|
  {
    if t == "" {
      UrlStable();
      assert t + r == r;
    } else {
      assert !Unfinished(t[0..]) && t[0..] == t;
      FinishedStays(t, r);
      if UrlMatch(t).Some? {
        ApartAtMatch(marker, t, r);
      } else {
        UrlsReplacedStep(marker, t);
        UrlsReplacedStep(marker, t + r);
        ConcatParts(t, r, 0, 1);
        FinishedSuffix(t, 1);
        ReplacedApart(marker, t[1..], r);
        RegroupedTail([t[0]], "", UrlsReplaced(marker, t[1..]), UrlsReplaced(marker, r));
      }
    }
  }

  lemma {:induction false} ApartAtMatch(marker: string, t: string, r: string)
    requires AllFinished(t) && Follows(r) && t != "" && UrlMatch(t).Some? && UrlMatch(t + r) == UrlMatch(t)
    ensures UrlsReplaced(marker, t + r) == UrlsReplaced(marker, t) + UrlsReplaced(marker, r)
    decreases |t|, 0
  {
    var (i, j) := UrlMatch(t).value;
    UrlsReplacedStep(marker, t);
    UrlsReplacedStep(marker, t + r);
    ConcatParts(t, r, i, j);
    FinishedSuffix(t, j);
    ReplacedApart(marker, t[j..], r);
    RegroupedTail(t[..i], marker, UrlsReplaced(marker, t[j..]), UrlsReplaced(marker, r));
  }

  /** Of a text that is a value something that is a value is left. */
  lemma {:induction false} ValueReplaced(marker: string, t: string)
    requires IsMarker(marker) && QueryValue(t)
    ensures QueryValue(UrlsReplaced(marker, t))
    decreases |t|
  {
    UrlsReplacedStep(marker, t);
    var k := if UrlMatch(t).Some? then UrlMatch(t).value.1 else 1;
    if k < |t| {
      ValueReplaced(marker, t[k..]);
    } else {
      UrlStable();
    }
  }

  /** A value with an open password at its end: `&z@` ends that password, and what is left is a value. */
  lemma {:induction false} EndedReplaced(marker: string, v: string, z: string, q: nat)
    requires IsMarker(marker) && QueryValue(v) && Ends(z) && q < |v| && OpenPassword(v[q..])
    ensures QueryValue(UrlsReplaced(marker, v + z))
    decreases |v|
  {
    if UrlMatch(v + z).Some? {
      EndedAtMatch(marker, v, z, q);
    } else {
      if q == 0 {
        assert v[0..] == v;
        OpenPasswordEnds(v, z);
      }
      UrlsReplacedStep(marker, v + z);
      DropDrop(v, 1, q - 1);
      ConcatParts(v, z, 0, 1);
      EndedReplaced(marker, v[1..], z, q - 1);
      JoinedValue([v[0]], "", UrlsReplaced(marker, v[1..] + z));
    }
  }

  lemma {:induction false} EndedAtMatch(marker: string, v: string, z: string, q: nat)
    requires IsMarker(marker) && QueryValue(v) && Ends(z) && q < |v| && OpenPassword(v[q..]) && UrlMatch(v + z).Some?
    ensures QueryValue(UrlsReplaced(marker, v + z))
    decreases |v|, 0
  {
    var (i, j) := UrlMatch(v + z).value;
    MatchEnds(v, z, q, i, j);
    if j < q {
      DropDrop(v, j, q - j);
      EndedReplaced(marker, v[j..], z, q - j);
      ConcatParts(v, z, i, j);
    } else {
      AtAlone(marker, "@");
    }
    LeftAtMatch(marker, v, z, i, j);
  }

  lemma LeftAtMatch(marker: string, v: string, z: string, i: nat, j: nat)
    requires IsMarker(marker) && QueryValue(v) && UrlMatch(v + z) == Some((i, j)) && i <= |v|
    requires QueryValue(UrlsReplaced(marker, (v + z)[j..]))
    ensures QueryValue(UrlsReplaced(marker, v + z))
  {
    UrlsReplacedStep(marker, v + z);
    assert (v + z)[..i] == v[..i];
    JoinedValue(v[..i], marker, UrlsReplaced(marker, (v + z)[j..]));
  }

  lemma JoinedValue(a: string, m: string, b: string)
    requires AllIn(a, 0, |a|, ValueChar) && AllIn(m, 0, |m|, ValueChar) && QueryValue(b)
    ensures QueryValue(a + m + b) && QueryValue(a + b)
  {}

  lemma OpenPasswordEnds(v: string, z: string)
    requires OpenPassword(v) && Ends(z)
    ensures UrlMatch(v + z).Some?
  {
    var t, a := v + z, SchemeEnd(v);
    var b := RunEnd(v, a + 3, UserChar);
    assert forall k :: 0 <= k < |v| ==> t[k] == v[k];
    assert t[|v|] == z[0] && t[|v| + 1] == z[1] && t[|v| + 2] == z[2];
    UrlMatchComplete(t, a, b, |v| + 2);
  }

  /** No `@` stands in the open URL: a match ends in front of it, or at the end. */
  lemma MatchEnds(v: string, z: string, q: nat, i: nat, j: nat)
    requires Ends(z) && q < |v| && OpenPassword(v[q..]) && UrlMatch(v + z) == Some((i, j))
    ensures 0 < i <= |v| && i < j && (j < q || j == |v| + 2) && (j == |v| + 2 ==> (v + z)[j..] == "@")
  {
    var s := v + z;
    assert forall k :: 0 <= k < |v| ==> s[k] == v[k];
    assert s[|v|] == z[0] && s[|v| + 1] == z[1] && s[|v| + 2] == z[2];
    assert s[i - 1] == ':' && s[j] == '@';
    if j < |v| {
      AtInFront(v, q, j);
    }
  }

  lemma ColonCredential(y: string, u: string, q: string, z: string)
    requires OpensUser(y, 1) && |y| > 4 && u != "" && u[|u| - 1] == ':' && AllIn(u, 0, |u| - 1, UserChar)
    requires Password(q) && z != "" && z[0] == '@'
    ensures Credential(UrlMatch, y + u, q, z)
  {
    var t, b, e := y + u + q + z, |y + u| - 1, |y + u + q|;
    assert forall k :: 0 <= k < |t| ==>
      t[k] == if k < |y| then y[k] else if k <= b then u[k - |y|] else if k < e then q[k - b - 1] else z[k - e];
    UrlMatchComplete(t, 1, b, e);
  }

  /** A value and what follows it, taken apart: a user up to a colon, a password, and what is left from its `@` on. */
  predicate Apart(v: string, r: string, u: string, q: string, w: string) {
    v + r == u + q + w && QueryValue(u) && u[|u| - 1] == ':' && AllIn(u, 0, |u| - 1, UserChar) && Password(q)
  }

  lemma RegroupedFive(x: string, h: string, u: string, q: string, z: string, v: string, r: string)
    requires v + r == u + q + z
    ensures x + h + u + q + z == x + h + v + r
  {
    assert x + h + u + q + z == x + h + (u + q + z);
    assert x + h + v + r == x + h + (v + r);
  }

  lemma SliceIn(v: string, i: nat, j: nat, cls: char -> bool)
    requires i <= j <= |v| && AllIn(v, i, j, cls)
    ensures AllIn(v[i..j], 0, j - i, cls)
  {}

  lemma UpToColon(v: string, f: nat)
    requires QueryValue(v) && f == UserEnd(v) && f < |v| && v[f] == ':'
    ensures var u := v[..f + 1]; QueryValue(u) && u[|u| - 1] == ':' && AllIn(u, 0, |u| - 1, UserChar)
  {
    var u := v[..f + 1];
    assert forall k :: 0 <= k <= f ==> u[k] == v[k];
  }

  lemma CutInside(v: string, i: nat, j: nat, r: string)
    requires i <= j <= |v|
    ensures v + r == v[..i] + v[i..j] + (v[j..] + r)
  {}

  lemma CutBehind(v: string, i: nat, z: string, j: nat, r: string)
    requires i <= |v| && j <= |z|
    ensures v + (z + r) == v[..i] + (v[i..] + z[..j]) + (z[j..] + r)
  {}

  lemma ColonAndAt(v: string, f: nat, g: nat, r: string)
    requires QueryValue(v) && f == UserEnd(v) && f + 1 < g < |v| && v[f] == ':' && g == RunEnd(v, f + 1, PassChar)
    ensures Apart(v, r, v[..f + 1], v[f + 1..g], v[g..] + r) && QueryValue(v[g..]) && v[g] == '@'
  {
    PasswordStops(v, f + 1);
    UpToColon(v, f);
    CutInside(v, f + 1, g, r);
    SliceIn(v, f + 1, g, PassChar);
    SliceIn(v, g, |v|, ValueChar);
  }

  lemma JoinedPassword(a: string, b: string)
    requires AllIn(a, 0, |a|, PassChar) && Password(b)
    ensures Password(a + b)
  {}

  lemma ColonToEnd(v: string, f: nat, z: string, r: string)
    requires QueryValue(v) && f == UserEnd(v) && f < |v| && v[f] == ':' && RunEnd(v, f + 1, PassChar) == |v| && Ends(z)
    ensures Apart(v, z + r, v[..f + 1], v[f + 1..] + z[..2], z[2..] + r) && QueryValue(z[2..]) && z[2..][0] == '@'
  {
    UpToColon(v, f);
    CutBehind(v, f + 1, z, 2, r);
    SliceIn(v, f + 1, |v|, PassChar);
    JoinedPassword(v[f + 1..], z[..2]);
  }

  /** Every URL of `w` ends in it, and its replacement leaves a value. */
  predicate LeavesValue(marker: string, w: string) { AllFinished(w) && QueryValue(UrlsReplaced(marker, w)) }

  lemma ClosingApart(marker: string, w: string, r: string)
    requires AllFinished(w) && Closing(r)
    ensures UrlsReplaced(marker, w + r) == UrlsReplaced(marker, w) + r
  {
    NoSlash(r);
    NoUrlKept(marker, r);
    ReplacedApart(marker, w, r);
  }

  lemma NoSlash(t: string)
    requires forall k :: 0 <= k < |t| ==> t[k] != '/'
    ensures NoUrl(t)
  {
    forall p | 0 <= p < |t| ensures NoneAt(UrlMatch, t, p) { NoSchemeNoUrl(t, p); }
  }

  lemma AtLeavesValue(marker: string, w: string)
    requires w == "@"
    ensures LeavesValue(marker, w)
  {
    AtAlone(marker, w);
    forall q | 0 <= q < |w| ensures !Unfinished(w[q..]) { assert w[q..] == w; }
  }

  /** A user that goes on into the value up to a colon, and a password behind it: only the password is taken away. */
  lemma ColonLeft(marker: string, x: string, h: string, u: string, q: string, z: string)
    requires UserStart(x) && TokenName(h) && u != "" && u[|u| - 1] == ':' && AllIn(u, 0, |u| - 1, UserChar)
    requires Password(q) && z != "" && z[0] == '@'
    ensures UrlsReplaced(marker, x + h + u + q + z) == x + h + u + marker + UrlsReplaced(marker, z)
  {
    ProbeOpens(x, h);
    ColonCredential(x + h, u, q, z);
    UrlStable();
    ReplaceAtMatch(UrlMatch, marker, x + h + u, q, z);
  }

  lemma RegroupedSix(x: string, h: string, u: string, m: string, w: string, r: string)
    ensures x + h + u + m + (w + r) == x + h + (u + m + w) + r
  {}

  lemma ColonWritten(marker: string, x: string, h: string, v: string, r: string, u: string, q: string, w: string,
                     r': string)
    requires Bracketed(marker) && UserStart(x) && TokenName(h) && QueryValue(v) && Follows(r) && NoQuery(r)
    requires Closing(r') && Apart(v, r, u, q, w + r') && LeavesValue(marker, w) && w != "" && w[0] == '@'
    ensures !SafeInText(marker, v)
  {
    var left := UrlsReplaced(marker, w);
    ClosingApart(marker, w, r');
    ColonLeft(marker, x, h, u, q, w + r');
    RegroupedFive(x, h, u, q, w + r', v, r);
    RegroupedSix(x, h, u, marker, left, r');
    JoinedValue(u, marker, left);
    UnsafeAt(marker, x, h, v, r, u + marker + left, r');
  }

  /** A user that goes on into the value and ends there without a password: no URL starts in front of the value. */
  lemma NoUrlBefore(marker: string, x: string, h: string, v: string, r: string)
    requires UserStart(x) && TokenName(h) && QueryValue(v) && UserEnd(v) < |v|
    requires v[UserEnd(v)] == ':' ==> RunEnd(v, UserEnd(v) + 1, PassChar) == UserEnd(v) + 1 < |v|
    ensures UrlsReplaced(marker, x + h + v + r) == x + h + UrlsReplaced(marker, v + r)
  {
    var t, f := x + h + v + r, UserEnd(v);
    ProbeOpens(x, h);
    LayersOf(x + h, v, r);
    if v[f] == ':' {
      PasswordInto(t, x + h, v, 1, f, f + 1);
    } else {
      UserInto(t, x + h, v, 1);
    }
    forall p | 0 <= p < 12 ensures NoneAt(UrlMatch, t, p) {
      if p == 0 {
        assert t[0..] == t;
      } else {
        FourthRegrouped(x, h, v, r);
        NoUrlBeforeValue(x, h, v + r, p);
      }
    }
    UrlStable();
    ReplaceCopies(UrlMatch, marker, t, 12);
    CutAfter(x + h, v, r);
  }

  lemma CutAfter(y: string, v: string, r: string)
    ensures (y + v + r)[..|y|] == y && (y + v + r)[|y|..] == v + r
  {}

  lemma SlashWritten(marker: string, x: string, h: string, v: string, z: string, r: string)
    requires Bracketed(marker) && UserStart(x) && TokenName(h) && QueryValue(v) && UserEnd(v) < |v| && Closing(r)
    requires v[UserEnd(v)] == ':' ==> RunEnd(v, UserEnd(v) + 1, PassChar) == UserEnd(v) + 1 < |v|
    requires LeavesValue(marker, v + z) && Follows(z + r) && NoQuery(z + r)
    ensures !SafeInText(marker, v)
  {
    var left := UrlsReplaced(marker, v + z);
    NoUrlBefore(marker, x, h, v, z + r);
    Associative(v, z, r);
    ClosingApart(marker, v + z, r);
    Associative(x + h, left, r);
    UnsafeAt(marker, x, h, v, z + r, left, r);
  }

  /** What comes behind the value, so that all URLs end: nothing more, or `&z@`. */
  predicate Suits(marker: string, v: string, z: string) {
    (z == "" || Ends(z)) && LeavesValue(marker, v + z)
    && forall g :: 0 <= g < |v| && v[g] == '@' ==> LeavesValue(marker, v[g..] + z)
  }

  lemma SuitedUnsafe(marker: string, v: string, z: string, x: string, h: string, r: string)
    requires Bracketed(marker) && QueryValue(v) && UserEnd(v) < |v| && !OpenColon(v) && Suits(marker, v, z)
    requires UserStart(x) && TokenName(h) && Closing(r)
    ensures !SafeInText(marker, v)
  {
    var f := UserEnd(v);
    var g := RunEnd(v, f + 1, PassChar);
    ClosingHasNoQuery(r);
    if z == "" {
      assert z + r == r;
    } else {
      EndsHasNoQuery(z, r);
    }
    if v[f] == ':' && g > f + 1 {
      PasswordStops(v, f + 1);
      ColonAndAt(v, f, g, z + r);
      Associative(v[g..], z, r);
      ColonWritten(marker, x, h, v, z + r, v[..f + 1], v[f + 1..g], v[g..] + z, r);
    } else {
      SlashWritten(marker, x, h, v, z, r);
    }
  }

  lemma OpenColonUnsafe(marker: string, v: string, x: string, h: string, r: string, z: string)
    requires Bracketed(marker) && QueryValue(v) && OpenColon(v)
    requires UserStart(x) && TokenName(h) && Closing(r) && Ends(z)
    ensures !SafeInText(marker, v)
  {
    var f := UserEnd(v);
    ColonToEnd(v, f, z, r);
    assert z[2..] == "@";
    AtLeavesValue(marker, z[2..]);
    EndsHasNoQuery(z, r);
    ColonWritten(marker, x, h, v, z + r, v[..f + 1], v[f + 1..] + z[..2], z[2..], r);
  }

  /** No URL is open at the end: nothing is needed behind the value. */
  lemma FinishedSuits(marker: string, v: string)
    requires IsMarker(marker) && QueryValue(v) && AllFinished(v)
    ensures Suits(marker, v, "")
  {
    NothingAdded(v);
    ValueReplaced(marker, v);
    forall g | 0 <= g < |v| && v[g] == '@' ensures LeavesValue(marker, v[g..] + "") {
      NothingAdded(v[g..]);
      FinishedSuffix(v, g);
      ValueReplaced(marker, v[g..]);
    }
  }

  lemma EndsFinish(v: string, z: string)
    requires Ends(z)
    ensures AllFinished(v + z)
  {
    var t := v + z;
    forall q | 0 <= q < |t| ensures !Unfinished(t[q..]) {
      assert t[q..][|t| - q - 1] == '@';
      AtEndFinished(t[q..]);
    }
  }

  lemma AtEndFinished(t: string)
    requires t != "" && t[|t| - 1] == '@'
    ensures !Unfinished(t)
  {}

  /** A password is open at the end: `&z@` suits. */
  lemma OpenPasswordSuits(marker: string, v: string, z: string, q: nat)
    requires IsMarker(marker) && QueryValue(v) && q < |v| && OpenPassword(v[q..]) && Ends(z)
    ensures Suits(marker, v, z)
  {
    EndsFinish(v, z);
    EndedReplaced(marker, v, z, q);
    forall g | 0 <= g < |v| && v[g] == '@' ensures LeavesValue(marker, v[g..] + z) {
      AtInFront(v, q, g);
      EndsFinish(v[g..], z);
      DropDrop(v, g, q - g);
      EndedReplaced(marker, v[g..], z, q - g);
    }
  }

  lemma UnprotectedIsUnsafe(marker: string, v: string, x: string, h: string, r: string, z: string)
    requires Bracketed(marker) && QueryValue(v) && !Plain(v) && !Protected(v)
    requires UserStart(x) && TokenName(h) && Closing(r) && Ends(z)
    ensures !SafeInText(marker, v)
  {
    OddEndsUser(v);
    if OpenColon(v) {
      OpenColonUnsafe(marker, v, x, h, r, z);
    } else if q :| 0 <= q < |v| && OpenPassword(v[q..]) {
      OpenPasswordSuits(marker, v, z, q);
      SuitedUnsafe(marker, v, z, x, h, r);
    } else {
      forall q | 0 <= q < |v| ensures !Unfinished(v[q..]) {
        assert !OpenUser(v[q..]) && !OpenPassword(v[q..]);
      }
      FinishedSuits(marker, v);
      SuitedUnsafe(marker, v, "", x, h, r);
    }
  }

  lemma OddEndsUser(v: string)
    requires QueryValue(v) && !Plain(v)
    ensures UserEnd(v) < |v|
  {
    var k :| 0 <= k < |v| && (v[k] == '@' || v[k] == ':' || v[k] == '/');
    assert !UserChar(v[k]);
  }

  /**
   * For every query value: both replacements together leave all URL passwords marked, among plain
   * query values and in every text, if and only if the value is plain or protected.
   */
  lemma SafeExactly(marker: string, v: string)
    requires Bracketed(marker) && Plain(marker) && QueryValue(v)
    ensures SafeInText(marker, v) <==> Plain(v) || Protected(v)
  {
    if Plain(v) {
      PlainIsSafe(marker, v);
    } else if Protected(v) {
      ProtectedIsSafe(marker, v);
    } else {
      SamplesFit();
      UnprotectedIsUnsafe(marker, v, "s://u", NAME, TAIL, "&z@");
    }
  }

  /** Without `://`, only plain values are safe. */
  lemma SafeWithoutScheme(marker: string, v: string)
    requires Bracketed(marker) && Plain(marker) && QueryValue(v) && !HasScheme(v)
    ensures SafeInText(marker, v) <==> Plain(v)
  {
    SafeExactly(marker, v);
    forall q | 0 <= q < |v| ensures !OpenUser(v[q..]) { NoSchemeNoUrl(v, q); }
  }

  /** `/a://b` is protected. */
  lemma ProtectedSample()
    ensures QueryValue("/a://b") && Protected("/a://b") && !Plain("/a://b")
  {
    var v, g := "/a://b", "a://b";
    assert v[1..] == g;
    RunEndIs(g, 1, 1, SchemeChar);
    RunEndIs(g, 4, 5, UserChar);
    assert OpenUser(v[1..]);
    forall q | 0 <= q < |v| ensures !OpenPassword(v[q..]) {
      if q != 1 {
        assert v[q..][0] == v[q];
        if q == 5 {
          assert v[q..] == "b";
        }
      }
    }
    RunEndIs(v, 0, 0, UserChar);
  }
}
