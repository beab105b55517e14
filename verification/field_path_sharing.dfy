/**
 * Which lists of names share a field path. Names may hold anything, dots and brackets included, so a
 * path does not determine its names: `a.b` is one name, or two. It determines them exactly up to
 * joining two neighbouring names into one and splitting one name into two.
 */
module FieldPathSharing {
  import opened Text
  import opened FieldPath

  // ---- Joining and splitting ----

  /** In `b`, the names `i` and `i + 1` of `a` are one name, written as they would be printed. */
  predicate JoinsAt(a: seq<string>, b: seq<string>, i: nat) {
    i + 1 < |a| && !AllDigits(a[i]) && b == a[..i] + [a[i] + Piece(a[i + 1])] + a[i + 2..]
  }

  /** In `b`, the first name of `a`, an index, is a name with its brackets written out. */
  predicate Brackets(a: seq<string>, b: seq<string>) {
    a != [] && AllDigits(a[0]) && b == [Piece(a[0])] + a[1..]
  }

  ghost predicate Joins(a: seq<string>, b: seq<string>) { Brackets(a, b) || exists i :: JoinsAt(a, b, i) }

  ghost predicate Neighbours(a: seq<string>, b: seq<string>) { Joins(a, b) || Joins(b, a) }

  /** From `a` to `b`, one joining or splitting at a time. */
  ghost predicate Chain(c: seq<seq<string>>, a: seq<string>, b: seq<string>) {
    && c != [] && c[0] == a && c[|c| - 1] == b
    && (forall i :: 0 <= i < |c| ==> AllNonEmpty(c[i]))
    && forall i :: 0 <= i < |c| - 1 ==> Neighbours(c[i], c[i + 1])
  }

  ghost predicate Connected(a: seq<string>, b: seq<string>) { exists c :: Chain(c, a, b) }

  // ---- Neighbours share their path ----

  lemma {:induction false} PiecesConcat(a: seq<string>, b: seq<string>)
    ensures Pieces(a + b) == Pieces(a) + Pieces(b)
  {
    if a == [] {
      NothingAdded(b);
      NothingAdded(Pieces(b));
    } else {
      PiecesConcat(a[1..], b);
      RestOfConcat(a, b);
      Associative(Piece(a[0]), Pieces(a[1..]), Pieces(b));
    }
  }

  lemma OnePiece(name: string)
    ensures Pieces([name]) == Piece(name)
  {
    RestOfCons(name, []);
    NothingAdded(Piece(name));
  }

  /** How the first name is printed. */
  function Head(name: string): string { if AllDigits(name) then Piece(name) else name }

  lemma PrintedParts(name: string, rest: seq<string>)
    ensures Printed([name] + rest) == Head(name) + Pieces(rest)
  {
    RestOfCons(name, rest);
  }

  /** A name with a printed piece behind it is no index. */
  lemma WithPieceIsName(p: string, q: string)
    ensures p + Piece(q) != "" && !AllDigits(p + Piece(q))
  {
    assert (p + Piece(q))[|p|] == '[' || (p + Piece(q))[|p|] == '.';
  }

  lemma JoinedPiece(p: string, q: string)
    requires !AllDigits(p)
    ensures Piece(p + Piece(q)) == Piece(p) + Piece(q)
  {
    WithPieceIsName(p, q);
    Associative(".", p, Piece(q));
  }

  lemma AroundTwo(a: seq<string>, i: nat)
    requires i + 1 < |a|
    ensures a == a[..i] + ([a[i], a[i + 1]] + a[i + 2..])
  {}

  lemma TwoPieces(p: string, q: string, rest: seq<string>)
    ensures Pieces([p, q] + rest) == Piece(p) + Piece(q) + Pieces(rest)
  {
    OnePiece(p);
    OnePiece(q);
    PiecesConcat([p], [q]);
    assert [p] + [q] == [p, q];
    PiecesConcat([p, q], rest);
  }

  lemma JoinFirstTwo(p: string, q: string, rest: seq<string>)
    requires !AllDigits(p)
    ensures Printed([p + Piece(q)] + rest) == Printed([p, q] + rest)
  {
    WithPieceIsName(p, q);
    PrintedParts(p + Piece(q), rest);
    PrintedParts(p, [q] + rest);
    assert [p] + ([q] + rest) == [p, q] + rest;
    OnePiece(q);
    PiecesConcat([q], rest);
    Associative(p, Piece(q), Pieces(rest));
  }

  lemma JoinLater(front: seq<string>, p: string, q: string, rest: seq<string>)
    requires front != [] && !AllDigits(p)
    ensures Printed(front + ([p + Piece(q)] + rest)) == Printed(front + ([p, q] + rest))
  {
    var one, two := [p + Piece(q)] + rest, [p, q] + rest;
    JoinedPiece(p, q);
    OnePiece(p + Piece(q));
    PiecesConcat([p + Piece(q)], rest);
    TwoPieces(p, q, rest);
    RestOfConcat(front, one);
    RestOfConcat(front, two);
    PiecesConcat(front[1..], one);
    PiecesConcat(front[1..], two);
  }

  lemma NonEmptyStays(a: seq<string>, b: seq<string>)
    requires AllNonEmpty(a) && Joins(a, b)
    ensures AllNonEmpty(b)
  {
    if !Brackets(a, b) {
      var i: nat :| JoinsAt(a, b, i);
      WithPieceIsName(a[i], a[i + 1]);
    }
  }

  lemma JoinKeepsPath(a: seq<string>, b: seq<string>)
    requires AllNonEmpty(a) && Joins(a, b)
    ensures PathOf(a) == PathOf(b)
  {
    NonEmptyStays(a, b);
    PathIsPrinted(a);
    PathIsPrinted(b);
    if Brackets(a, b) {
      BracketsPrinted(a);
    } else {
      var i: nat :| JoinsAt(a, b, i);
      JoinPrinted(a, i);
    }
  }

  lemma BracketsPrinted(a: seq<string>)
    requires a != [] && AllDigits(a[0])
    ensures Printed([Piece(a[0])] + a[1..]) == Printed(a)
  {
    WithPieceIsName("", a[0]);
    NothingAdded(Piece(a[0]));
    FirstAndRest(a);
    PrintedParts(Piece(a[0]), a[1..]);
  }

  lemma JoinPrinted(a: seq<string>, i: nat)
    requires i + 1 < |a| && !AllDigits(a[i])
    ensures Printed(a[..i] + [a[i] + Piece(a[i + 1])] + a[i + 2..]) == Printed(a)
  {
    AroundTwo(a, i);
    Associative(a[..i], [a[i] + Piece(a[i + 1])], a[i + 2..]);
    if i == 0 {
      NothingAdded([a[0], a[1]] + a[2..]);
      NothingAdded([a[0] + Piece(a[1])] + a[2..]);
      JoinFirstTwo(a[0], a[1], a[2..]);
    } else {
      JoinLater(a[..i], a[i], a[i + 1], a[i + 2..]);
    }
  }

  lemma {:induction false} ChainKeepsPath(c: seq<seq<string>>, a: seq<string>, b: seq<string>)
    requires Chain(c, a, b)
    ensures PathOf(a) == PathOf(b)
    decreases |c|
  {
    if |c| == 1 {
    } else {
      assert Neighbours(c[0], c[1]);
      if Joins(c[0], c[1]) {
        JoinKeepsPath(c[0], c[1]);
      } else {
        JoinKeepsPath(c[1], c[0]);
      }
      ChainKeepsPath(c[1..], c[1], b);
    }
  }

  // ---- Lists with one path are connected ----

  /** What is left to join: nothing but a single name that is no index has weight two. */
  function Weight(a: seq<string>): nat {
    2 * |a| + if a != [] && AllDigits(a[0]) then 1 else 0
  }

  predicate Joined(a: seq<string>) { |a| == 1 && !AllDigits(a[0]) }

  /** Everything else can be joined further. */
  lemma JoinOnce(a: seq<string>) returns (b: seq<string>)
    requires a != [] && AllNonEmpty(a) && !Joined(a)
    ensures Joins(a, b) && AllNonEmpty(b) && b != [] && Weight(b) < Weight(a) && PathOf(b) == PathOf(a)
  {
    if AllDigits(a[0]) {
      b := [Piece(a[0])] + a[1..];
      WithPieceIsName("", a[0]);
      NothingAdded(Piece(a[0]));
    } else {
      b := a[..0] + [a[0] + Piece(a[1])] + a[2..];
      WithPieceIsName(a[0], a[1]);
      assert JoinsAt(a, b, 0);
    }
    NonEmptyStays(a, b);
    JoinKeepsPath(a, b);
  }

  lemma JoinedPath(a: seq<string>)
    requires Joined(a) && AllNonEmpty(a)
    ensures PathOf(a) == a[0]
  {
    assert a[..0] == [];
  }

  /** A path of one name or more is a text, and no index. */
  lemma PathIsName(a: seq<string>)
    requires a != [] && AllNonEmpty(a)
    ensures PathOf(a) != "" && !AllDigits(PathOf(a))
  {
    var path, last := PathOf(a[..|a| - 1]), a[|a| - 1];
    if path == "" {
      if AllDigits(last) {
        assert PathOf(a)[0] == '[';
      }
    } else {
      ExtendIsPiece(path, last);
      WithPieceIsName(path, last);
    }
  }

  lemma Longer(c: seq<seq<string>>, a: seq<string>, b: seq<string>, d: seq<string>)
    requires Chain(c, a, b) && AllNonEmpty(d)
    ensures Neighbours(d, a) ==> Connected(d, b)
    ensures Neighbours(b, d) ==> Connected(a, d)
  {
    if Neighbours(d, a) {
      var e := [d] + c;
      forall i | 0 <= i < |e| - 1 ensures Neighbours(e[i], e[i + 1]) {
        assert i > 0 ==> e[i] == c[i - 1] && e[i + 1] == c[i];
      }
      assert Chain(e, d, b);
    }
    if Neighbours(b, d) {
      var e := c + [d];
      forall i | 0 <= i < |e| - 1 ensures Neighbours(e[i], e[i + 1]) {
        assert i < |c| - 1 ==> e[i] == c[i] && e[i + 1] == c[i + 1];
      }
      assert Chain(e, a, d);
    }
  }

  lemma {:induction false} SamePathConnected(a: seq<string>, b: seq<string>)
    requires AllNonEmpty(a) && AllNonEmpty(b) && PathOf(a) == PathOf(b)
    ensures Connected(a, b)
    decreases Weight(a) + Weight(b)
  {
    if a == [] || b == [] {
      if a != [] { PathIsName(a); }
      if b != [] { PathIsName(b); }
      assert Chain([a], a, b);
    } else if !Joined(a) {
      var a' := JoinOnce(a);
      SamePathConnected(a', b);
      var c :| Chain(c, a', b);
      Longer(c, a', b, a);
    } else if !Joined(b) {
      var b' := JoinOnce(b);
      SamePathConnected(a, b');
      var c :| Chain(c, a, b');
      Longer(c, a, b', b);
    } else {
      JoinedPath(a);
      JoinedPath(b);
      assert a == b;
      assert Chain([a], a, b);
    }
  }

  /**
   * Two pointers, whatever their names, have the same field path if and only if, without the empty
   * names, one list becomes the other by joining neighbouring names and splitting names, at a dot or
   * a bracketed index.
   */
  lemma PathsSharedExactlyIfConnected(a: seq<string>, b: seq<string>)
    ensures PathOf(Segments(Pointer(a))) == PathOf(Segments(Pointer(b))) <==> Connected(NonEmpty(a), NonEmpty(b))
  {
    SegmentsOfPointer(a);
    SegmentsOfPointer(b);
    var a', b' := NonEmpty(a), NonEmpty(b);
    if PathOf(a') == PathOf(b') {
      SamePathConnected(a', b');
    }
    if Connected(a', b') {
      var c :| Chain(c, a', b');
      ChainKeepsPath(c, a', b');
    }
  }

  // ---- Paths with one list of names ----

  /** At `k`, after a start that is no index, the name has a dot and a name, or ends in a bracketed index. */
  predicate SplitsAt(n: string, k: nat) {
    0 < k < |n| && !AllDigits(n[..k])
    && ((n[k] == '.' && k + 1 < |n| && !AllDigits(n[k + 1..]))
        || (n[k] == '[' && n[|n| - 1] == ']' && k + 1 < |n| && AllDigits(n[k + 1..|n| - 1])))
  }

  predicate IsBracketed(n: string) { |n| >= 2 && n[0] == '[' && n[|n| - 1] == ']' && AllDigits(n[1..|n| - 1]) }

  /** A single name that is no index, has no brackets of an index around it, and splits nowhere. */
  ghost predicate Atomic(names: seq<string>) {
    |names| == 1 && !AllDigits(names[0]) && !IsBracketed(names[0]) && forall k :: !SplitsAt(names[0], k)
  }

  /** Another list of names has the path too. */
  ghost predicate Shared(names: seq<string>) {
    exists other :: other != names && AllNonEmpty(other) && PathOf(other) == PathOf(names)
  }

  /** The name that is behind the start when a name splits. */
  function Behind(n: string, k: nat): string
    requires SplitsAt(n, k)
  {
    if n[k] == '.' then n[k + 1..] else n[k + 1..|n| - 1]
  }

  lemma SplitsIntoTwo(n: string, k: nat)
    requires SplitsAt(n, k)
    ensures n == n[..k] + Piece(Behind(n, k)) && Behind(n, k) != ""
  {
    if n[k] == '.' {
      assert n == n[..k] + ("." + n[k + 1..]);
    } else {
      assert n == n[..k] + ("[" + n[k + 1..|n| - 1] + "]");
    }
  }

  lemma PieceSplits(p: string, q: string)
    requires p != "" && !AllDigits(p) && q != ""
    ensures SplitsAt(p + Piece(q), |p|)
  {
    var n := p + Piece(q);
    assert n[..|p|] == p && n[|p|] == Piece(q)[0];
    if AllDigits(q) {
      assert n[|p| + 1..|n| - 1] == q;
    } else {
      assert n[|p| + 1..] == q;
    }
  }

  lemma TwoNames(p: string, q: string)
    requires p != "" && !AllDigits(p)
    ensures PathOf([p, q]) == p + Piece(q)
  {
    assert [p, q][..1] == [p];
    OneName(p);
    ExtendIsPiece(p, q);
  }

  lemma OneName(n: string)
    requires n != ""
    ensures PathOf([n]) == Head(n)
  {
    assert [n][..0] == [];
    NothingAdded("[");
  }

  lemma IndexPath(d: string)
    requires AllDigits(d)
    ensures PathOf([d]) == Piece(d) && PathOf([Piece(d)]) == Piece(d) && [Piece(d)] != [d]
  {
    WithPieceIsName("", d);
    NothingAdded(Piece(d));
    OneName(d);
    OneName(Piece(d));
  }

  lemma IndexIsBracketed(d: string)
    ensures AllDigits(d) ==> IsBracketed(Piece(d))
  {
    if AllDigits(d) {
      assert Piece(d)[1..|Piece(d)| - 1] == d;
    }
  }

  lemma NotAtomicIsShared(names: seq<string>)
    requires names != [] && AllNonEmpty(names) && !Atomic(names)
    ensures Shared(names)
  {
    if |names| > 1 {
      PathIsName(names);
      OneName(PathOf(names));
      assert [PathOf(names)] != names;
    } else if AllDigits(names[0]) {
      IndexPath(names[0]);
      assert names == [names[0]];
    } else if IsBracketed(names[0]) {
      var d := names[0][1..|names[0]| - 1];
      assert names[0] == Piece(d);
      IndexPath(d);
      assert names == [Piece(d)];
    } else {
      var k: nat :| SplitsAt(names[0], k);
      var p, q := names[0][..k], Behind(names[0], k);
      SplitsIntoTwo(names[0], k);
      TwoNames(p, q);
      OneName(names[0]);
      assert names == [names[0]] && [p, q] != names;
    }
  }

  lemma AtomicIsNotShared(names: seq<string>, other: seq<string>)
    requires AllNonEmpty(names) && Atomic(names) && AllNonEmpty(other) && PathOf(other) == PathOf(names)
    ensures other == names
  {
    OneName(names[0]);
    assert names == [names[0]];
    if |other| == 1 {
      OneName(other[0]);
      IndexIsBracketed(other[0]);
      assert other == [other[0]];
    } else if |other| > 1 {
      var init, last := other[..|other| - 1], other[|other| - 1];
      PathIsName(init);
      ExtendIsPiece(PathOf(init), last);
      PieceSplits(PathOf(init), last);
    }
  }

  /**
   * A list of non-empty names is the only one with its field path if and only if it is empty, or is
   * a single name that is no index, bracketed or not, and has no place to split.
   */
  lemma AloneExactlyIfAtomic(names: seq<string>)
    requires AllNonEmpty(names)
    ensures Shared(names) <==> names != [] && !Atomic(names)
  {
    if names == [] {
      forall other | AllNonEmpty(other) && other != [] ensures PathOf(other) != PathOf(names) {
        PathIsName(other);
      }
    } else if Atomic(names) {
      forall other | AllNonEmpty(other) && PathOf(other) == PathOf(names) ensures other == names {
        AtomicIsNotShared(names, other);
      }
    } else {
      NotAtomicIsShared(names);
    }
  }

  /** A name that is not empty and no index. */
  predicate Word(p: string) { p != "" && !AllDigits(p) }

  lemma DotIsNoDigit(p: string, q: string)
    ensures Word(p + "." + q)
  {
    var t := p + "." + q;
    assert t[|p|] == '.';
  }

  /** A dot in a name, and a dot at the edge of one. */
  lemma DotsCollide(p: string, q: string)
    requires Word(p) && Word(q)
    ensures PathOf([p + "." + q]) == PathOf([p, q])
    ensures PathOf([p + ".", q]) == PathOf([p, "." + q])
  {
    DotIsNoDigit(p, q);
    DotIsNoDigit(p, "");
    DotIsNoDigit("", q);
    assert p + "." + "" == p + "." && "" + "." + q == "." + q;
    Associative(p, ".", q);
    Associative(p, ".", "." + q);
    OneName(p + "." + q);
    TwoNames(p, q);
    TwoNames(p + ".", q);
    TwoNames(p, "." + q);
  }

  /** `a..b` is the path of two different lists. */
  lemma CollidingPair()
    ensures ["a.", "b"] != ["a", ".b"] && PathOf(["a.", "b"]) == PathOf(["a", ".b"])
  {
    assert "a" + "." == "a." && "." + "b" == ".b";
    assert !IsDigit("a"[0]) && !IsDigit("b"[0]);
    DotsCollide("a", "b");
    assert ["a.", "b"][0] != ["a", ".b"][0];
  }
}
