/** What of a text reaches the log: nothing of a query credential, and all of a text that holds none. */
module LoggedTexts {
  import opened Text
  import opened Replace
  import opened Scrub
  import opened Redaction

  // ---- Which texts the scrubber leaves as they are ----

  /** Every `scheme://user:password@` in the text, at whatever position, has the marker for a password. */
  ghost predicate UrlsMarked(t: string) {
    forall p: nat, a: nat, b: nat, e: nat ::
      p <= |t| && UrlAt(t[p..], a, b, e) ==> t[p..][b + 1..e] == "[redacted]"
  }

  /** Every `?name=value` in the text, at whatever position, has the marker for a value. */
  ghost predicate QueriesMarked(t: string) {
    forall p: nat, e: nat, j: nat ::
      p <= |t| && QueryAt(ListedName, t[p..], e, j) ==> t[p..][e + 1..j] == "[redacted]"
  }

  lemma ScrubbedQueriesMarked(text: string)
    ensures QueriesMarked(ScrubSecretsFromText(text))
  {
    var t := ScrubSecretsFromText(text);
    forall p: nat, e: nat, j: nat | p <= |t| && QueryAt(ListedName, t[p..], e, j)
      ensures t[p..][e + 1..j] == "[redacted]"
    {
      NoQueryCredentialSurvives(text, p, e, j);
    }
  }

  lemma UrlsMarkedIsClean(t: string)
    requires UrlsMarked(t)
    ensures Clean(UrlMatch, REDACTED, t)
  {
    forall p | 0 <= p <= |t| ensures CleanFrom(UrlMatch, REDACTED, t, p) {
      var s := t[p..];
      if UrlMatch(s).Some? {
        assert UrlAt(s, SchemeEnd(s), UrlMatch(s).value.0 - 1, UrlMatch(s).value.1);
      }
    }
  }

  lemma QueriesMarkedIsClean(t: string)
    requires QueriesMarked(t)
    ensures Clean(QueryMatch, REDACTED, t)
  {
    forall p | 0 <= p <= |t| ensures CleanFrom(QueryMatch, REDACTED, t, p) {
      var s := t[p..];
      if QueryMatch(s).Some? {
        assert QueryAt(ListedName, s, QueryMatch(s).value.0 - 1, QueryMatch(s).value.1);
      }
    }
  }

  /** The first replacement leaves exactly the texts whose URL credentials are marked. */
  lemma UrlsUnchangedExactly(t: string)
    ensures ScrubUrls(t) == t <==> UrlsMarked(t)
  {
    UrlStable();
    if UrlsMarked(t) {
      UrlsMarkedIsClean(t);
      ReplaceKeepsClean(UrlMatch, REDACTED, t);
    }
    if ScrubUrls(t) == t {
      forall p: nat, a: nat, b: nat, e: nat | p <= |t| && UrlAt(t[p..], a, b, e)
        ensures t[p..][b + 1..e] == "[redacted]"
      {
        NoUrlPasswordSurvives(t, p, a, b, e);
      }
    }
  }

  /** The scrubber leaves every text alone that holds no credential without the marker. */
  lemma MarkedIsUnchanged(t: string)
    requires UrlsMarked(t) && QueriesMarked(t)
    ensures ScrubSecretsFromText(t) == t
  {
    UrlsUnchangedExactly(t);
    QueryMatchReads();
    QueryStable(QueryMatch, ListedName);
    QueriesMarkedIsClean(t);
    ReplaceKeepsClean(QueryMatch, REDACTED, t);
  }

  // ---- Texts that pass, texts that are cut ----

  /** A short text without credentials is logged as it is, wherever it stands. */
  lemma InnocentTextPasses(h: Heap, v: Value, path: seq<nat>, t: string)
    requires ValueAt(h, v, path) == Some(Text(t)) && UrlsMarked(t) && QueriesMarked(t) && |t| <= 2048
    requires |path| <= 8 && NoneTwice(ObjectsOn(h, v, path), {})
    ensures OutAt(RedactLogObject(h, v), path) == Some(OutText(t))
  {
    EveryPosition(h, v, path);
    MarkedIsUnchanged(t);
  }

  /** A long text is logged with its first 2048 scrubbed characters and its scrubbed length. */
  lemma LongTextIsCut(h: Heap, v: Value, path: seq<nat>, t: string)
    requires ValueAt(h, v, path) == Some(Text(t)) && |ScrubSecretsFromText(t)| > 2048
    requires |path| <= 8 && NoneTwice(ObjectsOn(h, v, path), {})
    ensures var out, s := OutAt(RedactLogObject(h, v), path), ScrubSecretsFromText(t);
            out == Some(OutText(s[..2048] + "\U{2026}[truncated " + Decimal(|s|) + " chars]"))
  {
    EveryPosition(h, v, path);
  }

  // ---- No query credential at any position ----

  predicate CutAt(t: string, n: nat) {
    n > 2048 && |t| >= 2048 && t[2048..] == "\U{2026}[truncated " + Decimal(n) + " chars]"
  }

  /** The text was cut after 2048 characters; its last credential may have lost the end of its marker. */
  ghost predicate Cut(t: string) { exists n :: CutAt(t, n) }

  /** Every text of the output is free of unmarked query credentials or was cut. */
  ghost predicate TextsMarked(out: Out) {
    match out
    case OutText(t) => QueriesMarked(t) || Cut(t)
    case OutList(items) => forall i :: 0 <= i < |items| ==> TextsMarked(items[i])
    case OutRecord(fields) => forall i :: 0 <= i < |fields| ==> FieldTextsMarked(fields[i])
    case _ => true
  }

  ghost predicate FieldTextsMarked(field: Field) { TextsMarked(field.value) }

  /** An error's name is the one text that is logged without being scrubbed. */
  ghost predicate NamesMarked(h: Heap) {
    forall r :: r in h && h[r].Failure? ==> QueriesMarked(h[r].name)
  }

  /** A text in which no query string begins. */
  predicate Unopened(t: string) { forall k :: 0 <= k < |t| ==> !Opens(t[k]) }

  lemma UnopenedIsMarked(t: string)
    requires Unopened(t)
    ensures TextsMarked(OutText(t))
  {
    forall p: nat, e: nat, j: nat | p <= |t| ensures !QueryAt(ListedName, t[p..], e, j) {
      assert p < |t| ==> t[p..][0] == t[p];
    }
  }

  lemma CountUnopened(a: string, n: nat, b: string)
    requires Unopened(a) && Unopened(b)
    ensures TextsMarked(OutText(a + Decimal(n) + b))
  {
    var t := a + Decimal(n) + b;
    forall k | 0 <= k < |t| ensures !Opens(t[k]) {
      assert |a| <= k < |a| + |Decimal(n)| ==> t[k] == Decimal(n)[k - |a|] && t[k] in Decimal(n);
    }
    UnopenedIsMarked(t);
  }

  lemma CutTextIsCut(s: string, t: string, length: string)
    requires |s| > 2048 && t == s[..2048] + "\U{2026}" + "[truncated " + length + " chars]"
    ensures |t| >= 2048 && t[2048..] == "\U{2026}[truncated " + length + " chars]"
  {}

  lemma TextIsMarked(text: string)
    ensures TextsMarked(OutText(RedactText(text)))
  {
    var s, t := ScrubSecretsFromText(text), RedactText(text);
    if |s| > MAX_STRING_LENGTH {
      CutTextIsCut(s, t, Decimal(|s|));
      assert CutAt(t, |s|);
    } else {
      ScrubbedQueriesMarked(text);
    }
  }

  lemma {:induction false} PutKeepsTextsMarked(fields: seq<Field>, key: string, value: Out)
    requires TextsMarked(OutRecord(fields)) && TextsMarked(value)
    ensures TextsMarked(OutRecord(Put(fields, key, value)))
  {
    if fields == [] || fields[0].key == key {
    } else {
      assert TextsMarked(OutRecord(fields[1..]));
      PutKeepsTextsMarked(fields[1..], key, value);
    }
  }

  lemma OneMoreTextMarked(items: seq<Out>, more: Out)
    requires TextsMarked(OutList(items)) && TextsMarked(more)
    ensures TextsMarked(OutList(items + [more]))
  {}

  lemma ListTextsMarked(items: seq<Value>, f: Value -> Out)
    requires forall v :: TextsMarked(f(v))
    ensures TextsMarked(Render(List(items), f))
  {
    var shown := RenderItems(FirstOf(items, MAX_ARRAY_ITEMS), f);
    assert TextsMarked(OutList(shown));
    if |items| > MAX_ARRAY_ITEMS {
      var more := OutText("[" + Decimal(|items| - MAX_ARRAY_ITEMS) + " more items]");
      CountUnopened("[", |items| - MAX_ARRAY_ITEMS, " more items]");
      OneMoreTextMarked(shown, more);
    }
  }

  lemma RecordTextsMarked(entries: seq<(string, Value)>, f: Value -> Out)
    requires forall v :: TextsMarked(f(v))
    ensures TextsMarked(Render(Record(entries), f))
  {
    var shown := RenderFields(FirstOf(entries, MAX_KEYS), f);
    UnopenedIsMarked(REDACTED);
    UnopenedIsMarked("[key limit]");
    assert TextsMarked(OutRecord(shown));
    PutKeepsTextsMarked(shown, ELLIPSIS, OutText("[key limit]"));
  }

  lemma FailureTextsMarked(node: Node, f: Value -> Out)
    requires node.Failure? && QueriesMarked(node.name) && TextsMarked(f(node.cause))
    ensures TextsMarked(Render(node, f))
  {
    ScrubbedQueriesMarked(node.message);
    if node.stack.Some? {
      ScrubbedQueriesMarked(node.stack.value);
    }
    var fields := Render(node, f).fields;
    forall i | 0 <= i < |fields| ensures FieldTextsMarked(fields[i]) {}
  }

  lemma NodeTextsMarked(node: Node, f: Value -> Out)
    requires node.Failure? ==> QueriesMarked(node.name)
    requires forall v :: TextsMarked(f(v))
    ensures TextsMarked(Render(node, f))
  {
    match node
    case Binary(n) => CountUnopened("[binary ", n, " bytes]");
    case List(items) => ListTextsMarked(items, f);
    case Failure(_, _, _, _) => FailureTextsMarked(node, f);
    case Record(entries) => RecordTextsMarked(entries, f);
  }

  lemma {:induction false} WalkTextsMarked(h: Heap, v: Value, depth: nat, above: set<Ref>)
    requires NamesMarked(h)
    ensures TextsMarked(Redact(h, v, depth, above))
    decreases MAX_DEPTH - depth
  {
    if v.Text? {
      TextIsMarked(v.text);
    } else if v.Object? && v.ref in h {
      UnopenedIsMarked("[depth limit]");
      UnopenedIsMarked("[circular]");
      if h[v.ref].Binary? {
        NodeTextsMarked(h[v.ref], _ => OutUndefined);
      } else if depth < MAX_DEPTH && v.ref !in above {
        var f := (c: Value) => Redact(h, c, depth + 1, above + {v.ref});
        forall c: Value ensures TextsMarked(f(c)) {
          WalkTextsMarked(h, c, depth + 1, above + {v.ref});
        }
        NodeTextsMarked(h[v.ref], f);
      }
    }
  }

  /**
   * No text at any position of a log entry holds a query credential without the marker, unless the text
   * was cut, or it is the name of an error that holds one itself.
   */
  lemma NoQueryCredentialIsLogged(h: Heap, v: Value)
    requires NamesMarked(h)
    ensures TextsMarked(RedactLogObject(h, v))
  {
    WalkTextsMarked(h, v, 0, {});
  }

  /** The names of errors do matter: they are logged as they are. */
  lemma ErrorNamesAreNotScrubbed()
    ensures var h := map[0 := Failure("?sig=a", "", None, Undefined)];
            var out := RedactLogObject(h, Object(0));
            out.OutRecord? && |out.fields| == 3 && out.fields[0] == Field("type", OutText("?sig=a"))
  {
    var h := map[0 := Failure("?sig=a", "", None, Undefined)];
    EveryPosition(h, Object(0), []);
  }
}
