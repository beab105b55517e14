/** JSON Pointer (sections 3 and 4 of RFC 6901) to the field paths of validation errors. */
module FieldPath {
  import opened Text

  // ---- Unescaping ----

  /** `s.replace(/~d/g, c)` for a digit `d`: leftmost, non-overlapping. */
  function ReplaceTilde(s: string, d: char, c: char): string {
    if |s| < 2 then s
    else if s[0] == '~' && s[1] == d then [c] + ReplaceTilde(s[2..], d, c)
    else [s[0]] + ReplaceTilde(s[1..], d, c)
  }

  /** What the program does: first every `~1`, then every `~0`. */
  function Unescape(s: string): string { ReplaceTilde(ReplaceTilde(s, '1', '/'), '0', '~') }

  /** One pass from left to right over both escapes. */
  function UnescapeOnce(s: string): string {
    if |s| < 2 then s
    else if s[0] == '~' && s[1] == '1' then "/" + UnescapeOnce(s[2..])
    else if s[0] == '~' && s[1] == '0' then "~" + UnescapeOnce(s[2..])
    else [s[0]] + UnescapeOnce(s[1..])
  }

  function Escape(name: string): string {
    if name == "" then ""
    else (if name[0] == '~' then "~0" else if name[0] == '/' then "~1" else [name[0]]) + Escape(name[1..])
  }

  /** The two replacements one after the other read every text, well escaped or not, as one pass does. */
  lemma {:induction false} TwoReplacementsAreOnePass(s: string)
    ensures Unescape(s) == UnescapeOnce(s)
  {
    if |s| >= 2 {
      TwoReplacementsAreOnePass(s[1..]);
      TwoReplacementsAreOnePass(s[2..]);
      var t := ReplaceTilde(s, '1', '/');
      if s[0] == '~' && s[1] == '1' {
        var u := ReplaceTilde(s[2..], '1', '/');
        assert t == ['/'] + u && t[1..] == u;
      } else {
        var u := ReplaceTilde(s[1..], '1', '/');
        assert t == [s[0]] + u && t[1..] == u;
        if s[0] == '~' && s[1] == '0' {
          assert s[1..][1..] == s[2..];
          if |s| == 2 {
            assert u == "0";
          } else {
            assert u == ['0'] + ReplaceTilde(s[2..], '1', '/');
          }
          assert t[2..] == ReplaceTilde(s[2..], '1', '/');
        }
      }
    }
  }

  lemma {:induction false} UnescapeOnceEscape(name: string)
    ensures UnescapeOnce(Escape(name)) == name
  {
    if name == "" {
    } else {
      UnescapeOnceEscape(name[1..]);
      var e := Escape(name);
      if name[0] == '~' || name[0] == '/' {
        assert e[2..] == Escape(name[1..]);
      } else {
        assert e[1..] == Escape(name[1..]);
      }
    }
  }

  lemma {:induction false} EscapeHasNoSlash(name: string)
    ensures Free(Escape(name), '/') && (name != "" ==> Escape(name) != "")
  {
    if name == "" {
    } else {
      EscapeHasNoSlash(name[1..]);
    }
  }

  // ---- Paths ----

  predicate AllDigits(name: string) { name != "" && AllIn(name, 0, |name|, IsDigit) }

  /** The path so far with one more segment. */
  function Extend(path: string, name: string): string {
    if AllDigits(name) then path + "[" + name + "]"
    else if path == "" then name
    else path + "." + name
  }

  function PathOf(names: seq<string>): string {
    if names == [] then "" else Extend(PathOf(names[..|names| - 1]), names[|names| - 1])
  }

  function Unescaped(segments: seq<string>): seq<string> {
    seq(|segments|, i requires 0 <= i < |segments| => Unescape(segments[i]))
  }

  function NonEmpty(parts: seq<string>): seq<string> {
    if parts == [] then []
    else (if parts[0] != "" then [parts[0]] else []) + NonEmpty(parts[1..])
  }

  /** The program's `toFieldPath`. */
  method ToFieldPath(instancePath: string) returns (path: string)
    ensures path == PathOf(Segments(instancePath))
  {
    if instancePath == "" {
      assert NonEmpty(Split("", '/')) == [] by { assert [""][1..] == []; }
      return "";
    }
    var segments := NonEmpty(Split(instancePath, '/'));
    path := "";
    for i := 0 to |segments|
      invariant path == PathOf(Unescaped(segments[..i]))
    {
      var name := Unescape(segments[i]);
      assert Unescaped(segments[..i + 1]) == Unescaped(segments[..i]) + [name];
      if AllDigits(name) {
        path := path + "[" + name + "]";
      } else {
        path := path + (if path == "" then name else "." + name);
      }
    }
    assert segments[..|segments|] == segments;
  }

  /** The JSON Pointer of a list of names (section 3 of RFC 6901). */
  function Pointer(names: seq<string>): string {
    if names == [] then "" else "/" + (Escape(names[0]) + Pointer(names[1..]))
  }

  predicate AllNonEmpty(names: seq<string>) { forall i :: 0 <= i < |names| ==> names[i] != "" }

  lemma {:induction false} NonEmptyOfEscapes(names: seq<string>)
    ensures Unescaped(NonEmpty(Escapes(names))) == NonEmpty(names)
  {
    if names == [] {
    } else {
      NonEmptyOfEscapes(names[1..]);
      EscapeHasNoSlash(names[0]);
      EscapesFirst(names);
      TwoReplacementsAreOnePass(Escape(names[0]));
      UnescapeOnceEscape(names[0]);
      UnescapedFirst(Escape(names[0]), NonEmpty(Escapes(names[1..])));
      RestOfCons(Escape(names[0]), Escapes(names[1..]));
    }
  }

  lemma UnescapedFirst(segment: string, rest: seq<string>)
    ensures Unescaped([segment] + rest) == [Unescape(segment)] + Unescaped(rest)
  {}

  function Escapes(names: seq<string>): seq<string> {
    seq(|names|, i requires 0 <= i < |names| => Escape(names[i]))
  }

  lemma {:induction false} SplitPointer(names: seq<string>)
    ensures Split(Pointer(names), '/') == [""] + Escapes(names)
  {
    if names == [] {
    } else {
      SplitPointer(names[1..]);
      EscapeHasNoSlash(names[0]);
      SplitSlash(Escape(names[0]), Pointer(names[1..]), Escapes(names[1..]));
      EscapesFirst(names);
    }
  }

  lemma EscapesFirst(names: seq<string>)
    requires names != []
    ensures Escapes(names) == [Escape(names[0])] + Escapes(names[1..])
  {}

  lemma SplitSlash(e: string, tail: string, pieces: seq<string>)
    requires Free(e, '/') && Split(tail, '/') == [""] + pieces
    ensures Split("/" + (e + tail), '/') == [""] + ([e] + pieces)
  {
    SplitBehind(e, tail, '/');
    assert ([""] + pieces)[1..] == pieces && e + "" == e;
    assert ("/" + (e + tail))[1..] == e + tail;
  }

  // ---- Reading a path back ----

  predicate NamePart(c: char) { c != '.' && c != '[' }

  predicate PlainName(name: string) { name != "" && AllIn(name, 0, |name|, NamePart) }

  predicate AllPlain(names: seq<string>) { forall i :: 0 <= i < |names| ==> PlainName(names[i]) }

  /** What follows the first segment: `[digits]` and `.name` pieces. */
  function ParseRest(s: string): Option<seq<string>>
    decreases |s|
  {
    if s == "" then Some([])
    else if s[0] == '[' then
      var j := RunEnd(s, 1, IsDigit);
      if j == 1 || j == |s| || s[j] != ']' then None
      else match ParseRest(s[j + 1..])
        case None => None
        case Some(names) => Some([s[1..j]] + names)
    else if s[0] == '.' then
      var j := RunEnd(s, 1, NamePart);
      if j == 1 then None
      else match ParseRest(s[j..])
        case None => None
        case Some(names) => Some([s[1..j]] + names)
    else None
  }

  function Parse(path: string): Option<seq<string>>
  {
    if path == "" || path[0] == '[' then ParseRest(path) else ParseRest("." + path)
  }

  /** How a segment is printed when it is not the first one. */
  function Piece(name: string): string {
    if AllDigits(name) then "[" + name + "]" else "." + name
  }

  function Pieces(names: seq<string>): string {
    if names == [] then "" else Piece(names[0]) + Pieces(names[1..])
  }

  lemma {:induction false} PiecesAppend(names: seq<string>, name: string)
    ensures Pieces(names + [name]) == Pieces(names) + Piece(name)
  {
    if names == [] {
      NothingAdded([name]);
      assert [name][1..] == [];
      NothingAdded(Piece(name));
    } else {
      PiecesAppend(names[1..], name);
      RestOfConcat(names, [name]);
      Associative(Piece(names[0]), Pieces(names[1..]), Piece(name));
    }
  }

  /** What the first segment is printed as, and then the others. */
  function Printed(names: seq<string>): string {
    if names == [] then ""
    else (if AllDigits(names[0]) then Piece(names[0]) else names[0]) + Pieces(names[1..])
  }

  lemma ExtendIsPiece(path: string, name: string)
    requires path != ""
    ensures Extend(path, name) == path + Piece(name)
  {
    assert path + "[" + name + "]" == path + ("[" + name + "]");
    assert path + "." + name == path + ("." + name);
  }

  lemma PrintedAppend(init: seq<string>, last: string)
    requires init != []
    ensures Printed(init + [last]) == Printed(init) + Piece(last)
  {
    PiecesAppend(init[1..], last);
    assert (init + [last])[1..] == init[1..] + [last];
    var first := if AllDigits(init[0]) then Piece(init[0]) else init[0];
    assert first + (Pieces(init[1..]) + Piece(last)) == first + Pieces(init[1..]) + Piece(last);
  }

  lemma {:induction false} PathIsPrinted(names: seq<string>)
    requires AllNonEmpty(names)
    ensures PathOf(names) == Printed(names)
  {
    if |names| == 1 {
      assert names[..0] == [] && names[1..] == [];
      assert "" + "[" + names[0] + "]" == "[" + names[0] + "]";
    } else if |names| > 1 {
      var init, last := names[..|names| - 1], names[|names| - 1];
      PathIsPrinted(init);
      PrintedAppend(init, last);
      ExtendIsPiece(Printed(init), last);
      assert names == init + [last];
    }
  }

  lemma NamedPiece(name: string, rest: string)
    requires PlainName(name) && (rest == "" || !NamePart(rest[0]))
    ensures var s := "." + name + rest;
            RunEnd(s, 1, NamePart) == 1 + |name| && s[1..1 + |name|] == name && s[1 + |name|..] == rest
  {
    var s := "." + name + rest;
    assert s[1..1 + |name|] == name;
    forall k | 1 <= k < 1 + |name| ensures NamePart(s[k]) { assert s[k] == name[k - 1]; }
    RunEndIs(s, 1, 1 + |name|, NamePart);
  }

  lemma IndexPiece(name: string, rest: string)
    requires AllDigits(name)
    ensures var s := "[" + name + "]" + rest;
            RunEnd(s, 1, IsDigit) == 1 + |name| && s[1 + |name|] == ']' && s[1..1 + |name|] == name
                && s[2 + |name|..] == rest
  {
    var s := "[" + name + "]" + rest;
    assert s[1..1 + |name|] == name;
    forall k | 1 <= k < 1 + |name| ensures IsDigit(s[k]) { assert s[k] == name[k - 1]; }
    RunEndIs(s, 1, 1 + |name|, IsDigit);
  }

  lemma {:induction false} ParsePieces(names: seq<string>)
    requires AllPlain(names)
    ensures ParseRest(Pieces(names)) == Some(names)
  {
    if names == [] {
    } else {
      var name, rest := names[0], Pieces(names[1..]);
      ParsePieces(names[1..]);
      if AllDigits(name) {
        IndexPiece(name, rest);
      } else {
        NamedPiece(name, rest);
      }
      assert names == [name] + names[1..];
    }
  }

  lemma ParsePrinted(names: seq<string>)
    requires AllPlain(names)
    ensures Parse(Printed(names)) == ParseRest(Pieces(names))
  {
    if names != [] && !AllDigits(names[0]) {
      DotInFront(names[0], Pieces(names[1..]));
      assert NamePart(names[0][0]);
    }
  }

  lemma DotInFront(name: string, rest: string)
    requires name != ""
    ensures (name + rest)[0] == name[0] && "." + (name + rest) == "." + name + rest
  {}

  function Segments(instancePath: string): seq<string> { Unescaped(NonEmpty(Split(instancePath, '/'))) }

  /** The segments of a pointer are its names, without the empty ones. */
  lemma SegmentsOfPointer(names: seq<string>)
    ensures Segments(Pointer(names)) == NonEmpty(names) && AllNonEmpty(NonEmpty(names))
    ensures AllNonEmpty(names) ==> NonEmpty(names) == names
  {
    SplitPointer(names);
    NonEmptySkips(Escapes(names));
    NonEmptyOfEscapes(names);
    OnlyNonEmpty(names);
  }

  lemma {:induction false} OnlyNonEmpty(names: seq<string>)
    ensures AllNonEmpty(NonEmpty(names)) && (AllNonEmpty(names) ==> NonEmpty(names) == names)
  {
    if names == [] {
    } else {
      OnlyNonEmpty(names[1..]);
      FirstAndRest(names);
    }
  }

  /**
   * Names that are non-empty and free of dots and opening brackets are read back from the field path of
   * their pointer.
   */
  lemma FieldPathInvertible(names: seq<string>)
    requires AllPlain(names)
    ensures Parse(PathOf(Segments(Pointer(names)))) == Some(names)
  {
    assert AllNonEmpty(names);
    SegmentsOfPointer(names);
    PathIsPrinted(names);
    ParsePieces(names);
    ParsePrinted(names);
  }

  /** An empty property name, which RFC 6901 allows, is lost: two pointers, one field path. */
  lemma EmptyNameIsLost(names: seq<string>)
    ensures Segments(Pointer([""] + names)) == Segments(Pointer(names))
  {
    SplitPointer([""] + names);
    SplitPointer(names);
    EmptyEscaped(names);
    NonEmptySkips([""] + Escapes(names));
  }

  lemma EmptyEscaped(names: seq<string>)
    ensures Escapes([""] + names) == [""] + Escapes(names)
  {}

  lemma NonEmptySkips(parts: seq<string>)
    ensures NonEmpty([""] + parts) == NonEmpty(parts)
  {
    assert ([""] + parts)[1..] == parts;
  }
}
