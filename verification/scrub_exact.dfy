/**
 * Which query values stay hidden in every text. The two replacements of the scrubber run one after
 * the other, and a value with an `@`, a `:` or a `/` in it can take part in what the first one reads
 * as a URL credential. For each such value there is a text whose scrubbed form depends on it.
 */
module ScrubExact {
  import opened Text
  import opened Replace
  import opened Scrub

  /** Whatever stands around it, the value can be exchanged for a plain one without a trace. */
  ghost predicate Hides(v: string) {
    forall x, h, w, r :: Credential(QueryMatch, h, v, r) && Plain(w) ==>
      ScrubSecretsFromText(x + h + v + r) == ScrubSecretsFromText(x + h + w + r)
  }

  const NAME := "?token="
  const TAIL := "&:p@"

  predicate EndsIn(s: string, c: char, d: char) { |s| >= 2 && s[|s| - 2] == c && s[|s| - 1] == d }

  /** What matters of the marker. */
  predicate Bracketed(marker: string) {
    |marker| >= 2 && marker[0] == '[' && marker[|marker| - 1] == ']' && IsMarker(marker)
  }

  function QueriesReplaced(marker: string, text: string): string {
    QueryMatchReads();
    QueryStable(QueryMatch, ListedName);
    ReplaceAll(QueryMatch, marker, text)
  }

  function Out(marker: string, text: string): string { QueriesReplaced(marker, UrlsReplaced(marker, text)) }

  // ---- Texts that a replacement leaves alone ----

  predicate NoUrl(t: string) { forall p :: 0 <= p < |t| ==> NoneAt(UrlMatch, t, p) }

  lemma NoUrlKept(marker: string, t: string)
    requires NoUrl(t)
    ensures UrlsReplaced(marker, t) == t
  {
    UrlStable();
    ReplaceCopies(UrlMatch, marker, t, |t|);
  }

  lemma QueriesCopied(marker: string, s: string, k: nat)
    requires k <= |s| && forall p :: 0 <= p < k ==> !Opens(s[p])
    ensures QueriesReplaced(marker, s) == s[..k] + QueriesReplaced(marker, s[k..])
  {
    QueryMatchReads();
    QueryStable(QueryMatch, ListedName);
    forall p | 0 <= p < k ensures NoneAt(QueryMatch, s, p) {
      assert s[p..][0] == s[p];
    }
    ReplaceCopies(QueryMatch, marker, s, k);
  }

  /** Behind `&:`, nothing is a listed query name. */
  lemma TailKept(marker: string, s: string)
    requires |s| >= 2 && s[0] == '&' && s[1] == ':' && forall k :: 1 <= k < |s| ==> !Opens(s[k])
    ensures QueriesReplaced(marker, s) == s
  {
    forall p | 0 <= p < |s| ensures NoneAt(QueryMatch, s, p) {
      NoQueryName(s);
      assert s[0..] == s && s[p..][0] == s[p];
    }
    QueryMatchReads();
    QueryStable(QueryMatch, ListedName);
    ReplaceCopies(QueryMatch, marker, s, |s|);
    NothingAdded(s);
  }

  lemma NoQueryName(s: string)
    requires |s| >= 2 && s[0] == '&' && s[1] == ':'
    ensures QueryMatch(s).None?
  {
    RunEndIs(s, 1, 1, NameChar);
  }

  // ---- The credential ?token=value ----

  /** `?name=` with a listed name of five letters. */
  predicate TokenName(h: string) {
    |h| == 7 && h[0] == '?' && h[6] == '=' && ListedName(LowerAsciiText(h[1..6]))
    && forall k :: 0 <= k < 7 ==> UserChar(h[k])
  }

  lemma TokenIsName()
    ensures TokenName(NAME)
  {
    assert LowerAsciiText(NAME[1..6]) == QUERY_NAMES[0];
  }

  predicate Follows(r: string) { r == "" || !ValueChar(r[0]) }

  lemma TokenCredential(h: string, v: string, r: string)
    requires TokenName(h) && QueryValue(v) && Follows(r)
    ensures Credential(QueryMatch, h, v, r)
  {
    var s := h + v + r;
    QueryMatchReads();
    assert s[1..6] == h[1..6];
    InTheMiddle(h, v, r);
    assert r != "" ==> s[7 + |v|] == r[0];
    QueryMatchComplete(ListedName, s, 6, 7 + |v|);
  }

  /** Behind a start without query names, the value becomes the marker. */
  lemma TokenReplaced(marker: string, x: string, h: string, v: string, r: string)
    requires TokenName(h) && QueryValue(v) && Follows(r) && forall p :: 0 <= p < |x| ==> !Opens(x[p])
    ensures QueriesReplaced(marker, x + h + v + r) == x + (h + marker + QueriesReplaced(marker, r))
  {
    TokenCredential(h, v, r);
    QueryMatchReads();
    QueryStable(QueryMatch, ListedName);
    StartOf(x, h, v, r);
    QueriesCopied(marker, x + h + v + r, |x|);
    ReplaceAtMatch(QueryMatch, marker, h, v, r);
  }

  lemma StartOf(x: string, h: string, v: string, r: string)
    ensures (x + h + v + r)[|x|..] == h + v + r && (x + h + v + r)[..|x|] == x
    ensures forall p :: 0 <= p < |x| ==> (x + h + v + r)[p] == x[p]
  {}

  // ---- A value with an @ ----

  /** `s://u`, or the like. */
  predicate UserStart(x: string) {
    |x| == 5 && IsLetter(x[0]) && x[1] == ':' && x[2] == '/' && x[3] == '/' && IsLetter(x[4])
  }

  predicate PasswordStart(x: string) { |x| == 6 && UserStart(x[..5]) && x[5] == ':' }

  /** A URL whose password starts with the query and ends in its value, at `i`. */
  lemma UrlIntoValue(t: string, x: string, h: string, v: string, i: nat)
    requires PasswordStart(x) && TokenName(h) && QueryValue(v) && t == x + h + v + ""
    requires i < |v| && v[i] == '@' && forall k :: 0 <= k < i ==> v[k] != '@'
    ensures UrlMatch(t) == Some((6, 13 + i)) && t[..6] == x && 13 + i < |t|
  {
    InTheMiddle(x + h, v, "");
    assert forall k :: 0 <= k < 5 ==> x[k] == x[..5][k];
    forall k | 6 <= k < 13 + i ensures PassChar(t[k]) {
      assert t[k] == if k < 13 then h[k - 6] else v[k - 13];
    }
    assert t[13 + i] == v[i];
    UrlMatchComplete(t, 1, 5, 13 + i);
  }

  /** The `@` ends a password: what stands behind it is no longer part of the query. */
  lemma AtShows(marker: string, x: string, h: string, v: string, w: string, i: nat)
    requires Bracketed(marker) && PasswordStart(x) && TokenName(h) && QueryValue(v) && Plain(w)
    requires i < |v| && v[i] == '@' && forall k :: 0 <= k < i ==> v[k] != '@'
    ensures Out(marker, x + h + v + "") != Out(marker, x + h + w + "")
  {
    var t, u := x + h + v + "", x + h + w + "";
    UrlIntoValue(t, x, h, v, i);
    UrlsReplacedStep(marker, t);
    SeventhIsMarker(marker, x, UrlsReplaced(marker, t[13 + i..]));
    NoAtAround(x, h, w);
    NoAtNoUrl(u);
    NoUrlKept(marker, u);
    SeventhIsName(marker, x, h, w);
  }

  lemma NoAtAround(x: string, h: string, w: string)
    requires PasswordStart(x) && TokenName(h) && Plain(w)
    ensures var u := x + h + w + ""; forall k :: 0 <= k < |u| ==> u[k] != '@'
  {
    var u := x + h + w + "";
    forall k | 0 <= k < |u| ensures u[k] != '@' {
      assert u[k] == if k < 6 then x[k] else if k < 13 then h[k - 6] else w[k - 13];
      assert k < 5 ==> x[k] == x[..5][k];
    }
  }

  lemma SeventhIsMarker(marker: string, x: string, z: string)
    requires Bracketed(marker) && PasswordStart(x)
    ensures var out := QueriesReplaced(marker, x + marker + z); |out| > 6 && out[6] == '['
  {
    var s := x + marker + z;
    assert forall k :: 0 <= k < 5 ==> s[k] == x[..5][k];
    assert s[5] == x[5] && s[6] == marker[0];
    QueriesCopied(marker, s, 7);
  }

  lemma SeventhIsName(marker: string, x: string, h: string, w: string)
    requires PasswordStart(x) && TokenName(h) && QueryValue(w)
    ensures var out := QueriesReplaced(marker, x + h + w + ""); |out| > 6 && out[6] == '?'
  {
    assert forall k :: 0 <= k < 5 ==> x[k] == x[..5][k];
    TokenReplaced(marker, x, h, w, "");
    assert (x + (h + marker + QueriesReplaced(marker, "")))[6] == h[0];
  }

  lemma NoAtNoUrl(t: string)
    requires forall k :: 0 <= k < |t| ==> t[k] != '@'
    ensures NoUrl(t)
  {
    forall p | 0 <= p < |t| ensures NoneAt(UrlMatch, t, p) {
      assert forall k :: 0 <= k < |t[p..]| ==> t[p..][k] == t[p + k];
    }
  }

  // ---- A value with a : or a / and no @ ----

  /** `&:p@`: a user in front of it becomes one with a password. */
  predicate Closing(r: string) { |r| == 4 && r[0] == '&' && r[1] == ':' && r[2] == 'p' && r[3] == '@' }

  /** There is an `@` at the end, and nowhere else. */
  predicate OneAt(t: string) { t != "" && t[|t| - 1] == '@' && forall k :: 0 <= k < |t| - 1 ==> t[k] != '@' }

  lemma LastTwo(y: string, r: string)
    requires |r| >= 2
    ensures EndsIn(y + r, r[|r| - 2], r[|r| - 1])
  {}

  lemma AtAlone(marker: string, s: string)
    requires s == "@"
    ensures UrlsReplaced(marker, s) == s
  {
    forall p | 0 <= p < |s| ensures NoneAt(UrlMatch, s, p) {
      assert s[p..] == s;
    }
    NoUrlKept(marker, s);
  }

  lemma UrlUpToEnd(marker: string, t: string)
    requires OneAt(t) && UrlMatch(t).Some?
    ensures UrlMatch(t).value.1 == |t| - 1
    ensures UrlsReplaced(marker, t) == t[..UrlMatch(t).value.0] + marker + "@"
  {
    var j := UrlMatch(t).value.1;
    assert t[j] == '@';
    assert t[j..] == "@";
    AtAlone(marker, t[j..]);
    UrlsReplacedStep(marker, t);
  }

  /** If there is a URL credential, it ends at the `@`, right behind the marker. */
  lemma {:induction false} UrlsEnd(marker: string, t: string)
    requires Bracketed(marker) && OneAt(t) && !NoUrl(t)
    ensures EndsIn(UrlsReplaced(marker, t), ']', '@')
    decreases |t|
  {
    if UrlMatch(t).Some? {
      UrlUpToEnd(marker, t);
      MarkerThenAt(t[..UrlMatch(t).value.0], marker);
    } else {
      UrlIsFurtherOn(t);
      UrlsEnd(marker, t[1..]);
      UrlsReplacedStep(marker, t);
      LastTwoBehind(t[0], UrlsReplaced(marker, t[1..]));
    }
  }

  lemma MarkerThenAt(y: string, marker: string)
    requires Bracketed(marker)
    ensures EndsIn(y + marker + "@", ']', '@')
  {}

  lemma LastTwoBehind(c: char, s: string)
    requires EndsIn(s, ']', '@')
    ensures EndsIn([c] + s, ']', '@')
  {}

  lemma UrlIsFurtherOn(t: string)
    requires OneAt(t) && !NoUrl(t) && UrlMatch(t).None?
    ensures OneAt(t[1..]) && !NoUrl(t[1..])
  {
    var p :| 0 <= p < |t| && !NoneAt(UrlMatch, t, p);
    assert t[0..] == t;
    DropDrop(t, 1, p - 1);
    assert !NoneAt(UrlMatch, t[1..], p - 1);
  }

  lemma QueriesReplacedStep(marker: string, s: string)
    requires s != ""
    ensures QueriesReplaced(marker, s) ==
            match QueryMatch(s)
            case Some((i, j)) => s[..i] + marker + QueriesReplaced(marker, s[j..])
            case None => [s[0]] + QueriesReplaced(marker, s[1..])
  {
    QueryMatchReads();
    QueryStable(QueryMatch, ListedName);
  }

  /** A text that ends in a marker and an `@` still does, or ends in a marker now. */
  predicate EndsMarked(out: string) { EndsIn(out, ']', '@') || (out != "" && out[|out| - 1] == ']') }

  lemma {:induction false} EndStaysMarked(marker: string, z: string)
    requires Bracketed(marker) && EndsIn(z, ']', '@')
    ensures EndsMarked(QueriesReplaced(marker, z))
    decreases |z|
  {
    if QueryMatch(z).Some? {
      QueriesReplacedStep(marker, z);
      var (i, j) := QueryMatch(z).value;
      if j < |z| {
        ValueEndsBefore(z, j);
        EndStaysMarked(marker, z[j..]);
        MarkedBehind(z[..i] + marker, QueriesReplaced(marker, z[j..]));
      } else {
        MarkerLast(z[..i], marker);
      }
    } else if |z| > 2 {
      QueriesReplacedStep(marker, z);
      EndStaysMarked(marker, z[1..]);
      MarkedBehind([z[0]], QueriesReplaced(marker, z[1..]));
    } else {
      QueriesCopied(marker, z, 2);
      assert z[2..] == "" && z[..2] == z;
    }
  }

  lemma ValueEndsBefore(z: string, j: nat)
    requires EndsIn(z, ']', '@') && j < |z| && !ValueChar(z[j])
    ensures EndsIn(z[j..], ']', '@')
  {}

  lemma MarkedBehind(y: string, out: string)
    requires EndsMarked(out)
    ensures EndsMarked(y + out)
  {}

  lemma MarkerLast(y: string, marker: string)
    requires Bracketed(marker)
    ensures EndsMarked(y + marker + "")
  {}

  /** No URL starts in `&:p@`. */
  lemma NoUrlInClosing(t: string, n: nat, p: nat)
    requires n <= p < |t| && |t| == n + 4 && Closing(t[n..])
    ensures NoneAt(UrlMatch, t, p)
  {
    assert t[p] == t[n..][p - n];
    assert p < |t| - 1 ==> t[p..][1] == t[n..][p - n + 1];
  }

  lemma PlainHasNoUrl(h: string, w: string, r: string)
    requires TokenName(h) && Plain(w) && Closing(r)
    ensures NoUrl(h + w + r)
  {
    var t := h + w + r;
    TokenCredential(h, w, r);
    SuffixAfter(h + w, r);
    forall p | 0 <= p < |t| ensures NoneAt(UrlMatch, t, p) {
      if p < |h| + |w| {
        NoUrlInsideQuery(h, w, r, p);
      } else {
        NoUrlInClosing(t, |h| + |w|, p);
      }
    }
  }

  /** Without a URL, the closing text stays as it is. */
  lemma ClosingStays(marker: string, x: string, h: string, v: string, r: string)
    requires TokenName(h) && QueryValue(v) && Closing(r) && NoUrl(x + h + v + r)
             && forall p :: 0 <= p < |x| ==> !Opens(x[p])
    ensures EndsIn(Out(marker, x + h + v + r), 'p', '@')
  {
    NoUrlKept(marker, x + h + v + r);
    TokenReplaced(marker, x, h, v, r);
    TailKept(marker, r);
    LastTwo(x + (h + marker), r);
    assert x + (h + marker + r) == x + (h + marker) + r;
  }

  lemma OneAtAtEnd(y: string, h: string, v: string, r: string)
    requires TokenName(h) && Closing(r) && (forall k :: 0 <= k < |v| ==> v[k] != '@')
             && forall k :: 0 <= k < |y| ==> y[k] != '@'
    ensures OneAt(y + h + v + r)
  {
    var t := y + h + v + r;
    forall k | 0 <= k < |t| - 1 ensures t[k] != '@' {
      assert t[k] == if k < |y| then y[k] else if k < |y + h| then h[k - |y|]
                     else if k < |y + h + v| then v[k - |y + h|] else r[k - |y + h + v|];
    }
    assert t[|t| - 1] == r[3];
  }

  lemma UrlInsideMarked(marker: string, h: string, v: string, r: string)
    requires Bracketed(marker) && TokenName(h) && QueryValue(v) && Closing(r)
    requires !NoUrl(h + v + r) && forall k :: 0 <= k < |v| ==> v[k] != '@'
    ensures EndsMarked(Out(marker, h + v + r))
  {
    assert "" + h == h;
    OneAtAtEnd("", h, v, r);
    UrlsEnd(marker, h + v + r);
    EndStaysMarked(marker, UrlsReplaced(marker, h + v + r));
  }

  lemma PlainNotMarked(marker: string, h: string, w: string, r: string)
    requires Bracketed(marker) && TokenName(h) && Plain(w) && Closing(r)
    ensures !EndsMarked(Out(marker, "" + h + w + r))
  {
    assert "" + h == h;
    PlainHasNoUrl(h, w, r);
    ClosingStays(marker, "", h, w, r);
  }

  /** A URL that starts inside the query: with a plain value there is none. */
  lemma UrlInsideShows(marker: string, h: string, v: string, w: string, r: string)
    requires Bracketed(marker) && TokenName(h) && QueryValue(v) && Plain(w) && Closing(r)
    requires !NoUrl(h + v + r) && forall k :: 0 <= k < |v| ==> v[k] != '@'
    ensures Out(marker, "" + h + v + r) != Out(marker, "" + h + w + r)
  {
    assert "" + h == h;
    UrlInsideMarked(marker, h, v, r);
    PlainNotMarked(marker, h, w, r);
  }

  /** A URL that starts before the query and whose user goes on up to the colon at `b`. */
  lemma UrlOverQuery(x: string, h: string, v: string, r: string, b: nat)
    requires UserStart(x) && TokenName(h) && QueryValue(v) && Closing(r) && forall k :: 0 <= k < |v| ==> v[k] != '@'
    requires 12 <= b < |x + h + v + r| - 2 && (x + h + v + r)[b] == ':'
    requires forall k :: 12 <= k < b ==> UserChar((x + h + v + r)[k])
    ensures UrlMatch(x + h + v + r) == Some((b + 1, |x + h + v + r| - 1))
  {
    var t := x + h + v + r;
    forall k | 0 <= k < 12 ensures t[k] == if k < 5 then x[k] else h[k - 5] {}
    InTheMiddle(x + h, v, r);
    forall k | 12 <= k < |t| - 1 ensures PassChar(t[k]) {
      assert t[k] == if k < 12 + |v| then v[k - 12] else r[k - 12 - |v|];
    }
    assert t[|t| - 1] == r[3];
    UrlMatchComplete(t, 1, b, |t| - 1);
  }

  /** With a plain value, the user goes on to the colon of the closing text. */
  lemma PlainIsUser(marker: string, x: string, h: string, w: string, r: string)
    requires Bracketed(marker) && UserStart(x) && TokenName(h) && Plain(w) && Closing(r)
    ensures EndsIn(Out(marker, x + h + w + r), ']', '@')
  {
    var t, b := x + h + w + r, 13 + |w|;
    InTheMiddle(x + h, w, r);
    assert forall k :: 12 + |w| <= k < |t| ==> t[k] == r[k - 12 - |w|];
    UrlOverQuery(x, h, w, r, b);
    assert forall k :: 0 <= k < 5 ==> x[k] != '@';
    OneAtAtEnd(x, h, w, r);
    UrlUpToEnd(marker, t);
    var r' := r[..2] + marker + "@";
    ClosingMarked(x + h + w, r, marker);
    TokenReplaced(marker, x, h, w, r');
    TailKept(marker, r');
    LastTwo(x + (h + marker), r');
    Associative(x, h + marker, r');
  }

  lemma ClosingMarked(y: string, r: string, marker: string)
    requires Closing(r) && Bracketed(marker)
    ensures var z := r[..2] + marker + "@";
            (y + r)[..|y| + 2] + marker + "@" == y + z && EndsIn(z, ']', '@') && Follows(z)
            && z[0] == '&' && z[1] == ':' && forall k :: 1 <= k < |z| ==> !Opens(z[k])
  {
    var z := r[..2] + marker + "@";
    assert (y + r)[..|y| + 2] == y + r[..2];
    forall k | 1 <= k < |z| ensures !Opens(z[k]) {
      assert z[k] == if k < 2 then r[k] else if k < 2 + |marker| then marker[k - 2] else '@';
    }
  }

  /** A slash stops the user: no URL starts before the query. */
  lemma SlashStopsUser(x: string, h: string, v: string, r: string, i: nat)
    requires UserStart(x) && TokenName(h) && QueryValue(v) && NoUrl(h + v + r)
    requires i < |v| && v[i] == '/' && forall k :: 0 <= k < i ==> UserChar(v[k])
    ensures NoUrl(x + h + v + r)
  {
    var t := x + h + v + r;
    StartOf(x, h, v, r);
    forall p | 0 <= p < |t| ensures NoneAt(UrlMatch, t, p) {
      if p == 0 {
        NoUrlAtStart(t, x, h, v, r, i);
        assert t[0..] == t;
      } else if p < 4 {
        assert t[p..][0] == x[p];
      } else if p == 4 {
        LetterThenQuery(t[4..], x[4], h[0]);
      } else {
        DropDrop(t, 5, p - 5);
        assert NoneAt(UrlMatch, h + v + r, p - 5);
      }
    }
  }

  lemma LetterThenQuery(s: string, c: char, d: char)
    requires |s| >= 2 && s[0] == c && s[1] == d && d == '?'
    ensures UrlMatch(s).None?
  {
    RunEndIs(s, 1, 1, SchemeChar);
  }

  lemma NoUrlAtStart(t: string, x: string, h: string, v: string, r: string, i: nat)
    requires UserStart(x) && TokenName(h) && t == x + h + v + r
    requires i < |v| && v[i] == '/' && forall k :: 0 <= k < i ==> UserChar(v[k])
    ensures UrlMatch(t).None?
  {
    RunEndIs(t, 1, 1, SchemeChar);
    InTheMiddle(x + h, v, r);
    forall k | 4 <= k < 12 + i ensures UserChar(t[k]) {
      assert t[k] == if k < 5 then x[k] else if k < 12 then h[k - 5] else v[k - 12];
    }
    assert t[12 + i] == v[i];
    RunEndIs(t, 4, 12 + i, UserChar);
  }

  /** A colon in the value starts a password, and the query value goes on behind it. */
  lemma ColonShows(marker: string, x: string, h: string, v: string, r: string, i: nat)
    requires Bracketed(marker) && UserStart(x) && TokenName(h) && QueryValue(v) && Closing(r)
    requires i < |v| && v[i] == ':' && (forall k :: 0 <= k < i ==> UserChar(v[k]))
             && forall k :: 0 <= k < |v| ==> v[k] != '@'
    ensures var out := Out(marker, x + h + v + r); out != "" && out[|out| - 1] == ']'
  {
    var t := x + h + v + r;
    InTheMiddle(x + h, v, r);
    UrlOverQuery(x, h, v, r, 12 + i);
    assert forall k :: 0 <= k < 5 ==> x[k] != '@';
    OneAtAtEnd(x, h, v, r);
    UrlUpToEnd(marker, t);
    var v' := v[..i + 1] + marker + "@";
    PasswordMarked(x + h, v, r, marker, i + 1);
    ValueStays(v, marker, i + 1);
    TokenReplaced(marker, x, h, v', "");
    LastOf(x, h, marker);
  }

  lemma PasswordMarked(y: string, v: string, r: string, marker: string, n: nat)
    requires n <= |v|
    ensures (y + v + r)[..|y| + n] + marker + "@" == y + (v[..n] + marker + "@") + ""
  {
    assert (y + v + r)[..|y| + n] == y + v[..n];
  }

  lemma ValueStays(v: string, marker: string, n: nat)
    requires QueryValue(v) && Bracketed(marker) && n <= |v|
    ensures QueryValue(v[..n] + marker + "@")
  {
    var v' := v[..n] + marker + "@";
    forall k | 0 <= k < |v'| ensures ValueChar(v'[k]) {
      assert v'[k] == if k < n then v[k] else if k < n + |marker| then marker[k - n] else '@';
    }
  }

  lemma LastOf(x: string, h: string, marker: string)
    requires Bracketed(marker)
    ensures var out := x + (h + marker + ""); out != "" && out[|out| - 1] == ']'
  {}

  /** The first character that is not plain. */
  function FirstOdd(v: string): (i: nat)
    ensures i <= |v| && (i < |v| ==> v[i] == ':' || v[i] == '/' || v[i] == '@')
    ensures forall k :: 0 <= k < i ==> v[k] != ':' && v[k] != '/' && v[k] != '@'
  {
    if v == "" || v[0] == ':' || v[0] == '/' || v[0] == '@' then 0 else 1 + FirstOdd(v[1..])
  }

  lemma OddStopsUser(v: string)
    requires QueryValue(v) && !Plain(v)
    ensures FirstOdd(v) < |v| && forall k :: 0 <= k < FirstOdd(v) ==> UserChar(v[k])
  {
    assert forall k :: 0 <= k < |v| ==> ValueChar(v[k]);
  }

  /** A URL that starts before the query: it reads the value and a plain one differently. */
  lemma UrlBeforeShows(marker: string, x: string, h: string, v: string, w: string, r: string)
    requires Bracketed(marker) && UserStart(x) && TokenName(h) && QueryValue(v) && !Plain(v) && Plain(w) && Closing(r)
    requires NoUrl(h + v + r) && forall k :: 0 <= k < |v| ==> v[k] != '@'
    ensures Out(marker, x + h + v + r) != Out(marker, x + h + w + r)
  {
    var i := FirstOdd(v);
    OddStopsUser(v);
    if v[i] == '/' {
      SlashStopsUser(x, h, v, r, i);
      ClosingStays(marker, x, h, v, r);
    } else {
      ColonShows(marker, x, h, v, r, i);
    }
    PlainIsUser(marker, x, h, w, r);
  }

  function FirstAt(v: string): (i: nat)
    ensures i <= |v| && (i < |v| ==> v[i] == '@') && forall k :: 0 <= k < i ==> v[k] != '@'
  {
    if v == "" || v[0] == '@' then 0 else 1 + FirstAt(v[1..])
  }

  lemma OutIsScrubbed(text: string)
    ensures Out(REDACTED, text) == ScrubSecretsFromText(text)
  {}

  lemma HiddenAt(x: string, h: string, v: string, w: string, r: string)
    requires Hides(v) && TokenName(h) && QueryValue(v) && Plain(w) && Follows(r)
    ensures Out(REDACTED, x + h + v + r) == Out(REDACTED, x + h + w + r)
  {
    TokenCredential(h, v, r);
    OutIsScrubbed(x + h + v + r);
    OutIsScrubbed(x + h + w + r);
  }

  lemma MarkerIsBracketed()
    ensures Bracketed(REDACTED)
  {
    RedactedIsMarker();
  }

  lemma SamplesFit()
    ensures UserStart("s://u") && PasswordStart("s://u:") && TokenName(NAME) && Closing(TAIL) && Plain("a")
  {
    TokenIsName();
    assert "s://u:"[..5] == "s://u";
  }

  /** A query value stays hidden in every text exactly if it has no `@`, no `:` and no `/`. */
  lemma HidesExactlyPlain(v: string)
    requires QueryValue(v)
    ensures Hides(v) <==> Plain(v)
  {
    if Plain(v) {
      forall x, h, w, r | Credential(QueryMatch, h, v, r) && Plain(w)
        ensures ScrubSecretsFromText(x + h + v + r) == ScrubSecretsFromText(x + h + w + r)
      {
        PlainValueNeverShows(x, h, v, w, r);
      }
    } else if Hides(v) {
      var x, y, w := "s://u", "s://u:", "a";
      SamplesFit();
      MarkerIsBracketed();
      var i := FirstAt(v);
      if i < |v| {
        HiddenAt(y, NAME, v, w, "");
        AtShows(REDACTED, y, NAME, v, w, i);
      } else {
        HiddenAt("", NAME, v, w, TAIL);
        HiddenAt(x, NAME, v, w, TAIL);
        if NoUrl(NAME + v + TAIL) {
          UrlBeforeShows(REDACTED, x, NAME, v, w, TAIL);
        } else {
          UrlInsideShows(REDACTED, NAME, v, w, TAIL);
        }
      }
    }
  }
}
