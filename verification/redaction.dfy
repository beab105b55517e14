/** The log redactor: a bounded walk over an arbitrary, possibly cyclic object graph. */
module Redaction {
  import opened Text
  import opened Replace
  import opened Scrub

  const MAX_DEPTH := 8
  const MAX_ARRAY_ITEMS := 50
  const MAX_KEYS := 100
  const MAX_STRING_LENGTH := 2048
  const ELLIPSIS := "\U{2026}"

  /** The identity of an object. */
  type Ref = nat

  /** `Primitive` stands for numbers, booleans, big integers, symbols and functions, which pass unchanged. */
  datatype Value = Null | Undefined | Text(text: string) | Primitive(id: int) | Object(ref: Ref)

  datatype Node =
    | Binary(byteLength: nat)
    | List(items: seq<Value>)
    | Failure(name: string, message: string, stack: Option<string>, cause: Value)
    | Record(entries: seq<(string, Value)>)

  type Heap = map<Ref, Node>

  datatype Out =
    | OutNull
    | OutUndefined
    | OutText(text: string)
    | OutPrimitive(id: int)
    | OutList(items: seq<Out>)
    | OutRecord(fields: seq<Field>)

  datatype Field = Field(key: string, value: Out)

  // ---- The walk as a function ----

  function RedactText(text: string): string {
    var scrubbed := ScrubSecretsFromText(text);
    if |scrubbed| > MAX_STRING_LENGTH
    then scrubbed[..MAX_STRING_LENGTH] + ELLIPSIS + "[truncated " + Decimal(|scrubbed|) + " chars]"
    else scrubbed
  }

  /** `out[key] = value`: an existing key keeps its place. */
  function Put(fields: seq<Field>, key: string, value: Out): seq<Field> {
    if fields == [] then [Field(key, value)]
    else if fields[0].key == key then [Field(key, value)] + fields[1..]
    else [fields[0]] + Put(fields[1..], key, value)
  }

  function RenderItems(items: seq<Value>, child: Value -> Out): seq<Out> {
    seq(|items|, i requires 0 <= i < |items| => child(items[i]))
  }

  function RenderField(entry: (string, Value), child: Value -> Out): Field {
    Field(entry.0, if IsSecretKey(entry.0) then OutText(REDACTED) else child(entry.1))
  }

  function RenderFields(entries: seq<(string, Value)>, child: Value -> Out): seq<Field> {
    seq(|entries|, i requires 0 <= i < |entries| => RenderField(entries[i], child))
  }

  function FirstOf<T>(s: seq<T>, n: nat): seq<T> { if |s| <= n then s else s[..n] }

  /** How one object is written out, given how its parts are. */
  function Render(node: Node, child: Value -> Out): Out {
    match node
    case Binary(n) => OutText("[binary " + Decimal(n) + " bytes]")
    case List(items) =>
      var shown := RenderItems(FirstOf(items, MAX_ARRAY_ITEMS), child);
      OutList(if |items| > MAX_ARRAY_ITEMS
              then shown + [OutText("[" + Decimal(|items| - MAX_ARRAY_ITEMS) + " more items]")]
              else shown)
    case Failure(name, message, stack, cause) =>
      OutRecord([Field("type", OutText(name)), Field("message", OutText(ScrubSecretsFromText(message))),
                 Field("stack", if stack.Some? then OutText(ScrubSecretsFromText(stack.value)) else OutUndefined)]
                + (if cause.Undefined? then [] else [Field("cause", child(cause))]))
    case Record(entries) =>
      var shown := RenderFields(FirstOf(entries, MAX_KEYS), child);
      OutRecord(if |entries| > MAX_KEYS then Put(shown, ELLIPSIS, OutText("[key limit]")) else shown)
  }

  /**
   * What the walk writes for `v` at the given depth, below the objects `above`. A reference that is
   * not in the heap does not occur in the program; it is written as undefined.
   */
  function Redact(h: Heap, v: Value, depth: nat, above: set<Ref>): Out
    decreases MAX_DEPTH - depth
  {
    match v
    case Null => OutNull
    case Undefined => OutUndefined
    case Text(text) => OutText(RedactText(text))
    case Primitive(id) => OutPrimitive(id)
    case Object(r) =>
      if r !in h then OutUndefined
      else if h[r].Binary? then Render(h[r], _ => OutUndefined)
      else if depth >= MAX_DEPTH then OutText("[depth limit]")
      else if r in above then OutText("[circular]")
      else Render(h[r], child => Redact(h, child, depth + 1, above + {r}))
  }

  function RedactLogObject(h: Heap, v: Value): Out { Redact(h, v, 0, {}) }

  // ---- The walk as the program runs it ----

  /** The set of objects the walk is currently inside of. */
  class SeenSet {
    var refs: set<Ref>
    constructor ()
      ensures refs == {}
    {
      refs := {};
    }
  }

  predicate DistinctKeys(entries: seq<(string, Value)>) {
    forall i, j :: 0 <= i < j < |entries| ==> entries[i].0 != entries[j].0
  }

  /** The keys of an object are distinct. */
  predicate WellFormed(h: Heap) {
    forall r :: r in h && h[r].Record? ==> DistinctKeys(h[r].entries)
  }

  lemma {:induction false} PutAppends(fields: seq<Field>, key: string, value: Out)
    requires forall i :: 0 <= i < |fields| ==> fields[i].key != key
    ensures Put(fields, key, value) == fields + [Field(key, value)]
  {
    if fields == [] {
    } else {
      PutAppends(fields[1..], key, value);
      assert fields == [fields[0]] + fields[1..];
    }
  }

  method RedactValue(h: Heap, v: Value, depth: nat, seen: SeenSet) returns (out: Out)
    requires WellFormed(h)
    modifies seen
    ensures seen.refs == old(seen.refs)
    ensures out == Redact(h, v, depth, old(seen.refs))
    decreases MAX_DEPTH - depth, 1
  {
    match v {
      case Null => return OutNull;
      case Undefined => return OutUndefined;
      case Text(text) => return OutText(RedactText(text));
      case Primitive(id) => return OutPrimitive(id);
      case Object(r) =>
        if r !in h { return OutUndefined; }
        var node := h[r];
        if node.Binary? { return OutText("[binary " + Decimal(node.byteLength) + " bytes]"); }
        if depth >= MAX_DEPTH { return OutText("[depth limit]"); }
        if r in seen.refs { return OutText("[circular]"); }
        seen.refs := seen.refs + {r};
        out := RedactNode(h, node, depth, seen);
        seen.refs := seen.refs - {r};
    }
  }

  /** The parts of an object that is being visited. */
  method RedactNode(h: Heap, node: Node, depth: nat, seen: SeenSet) returns (out: Out)
    requires WellFormed(h) && depth < MAX_DEPTH && !node.Binary? && (node.Record? ==> DistinctKeys(node.entries))
    modifies seen
    ensures seen.refs == old(seen.refs)
    ensures out == Render(node, child => Redact(h, child, depth + 1, old(seen.refs)))
    decreases MAX_DEPTH - depth, 0, 1
  {
    match node {
      case List(items) =>
        var shown := RedactItems(h, FirstOf(items, MAX_ARRAY_ITEMS), depth, seen);
        if |items| > MAX_ARRAY_ITEMS {
          shown := shown + [OutText("[" + Decimal(|items| - MAX_ARRAY_ITEMS) + " more items]")];
        }
        out := OutList(shown);
      case Failure(name, message, stack, cause) =>
        var fields := [Field("type", OutText(name)), Field("message", OutText(ScrubSecretsFromText(message))),
                       Field("stack", if stack.Some? then OutText(ScrubSecretsFromText(stack.value))
                           else OutUndefined)];
        if !cause.Undefined? {
          var inner := RedactValue(h, cause, depth + 1, seen);
          fields := fields + [Field("cause", inner)];
        }
        out := OutRecord(fields);
      case Record(entries) =>
        var fields := RedactEntries(h, entries, depth, seen);
        out := OutRecord(fields);
    }
  }

  method RedactItems(h: Heap, items: seq<Value>, depth: nat, seen: SeenSet) returns (shown: seq<Out>)
    requires WellFormed(h) && depth < MAX_DEPTH
    modifies seen
    ensures seen.refs == old(seen.refs)
    ensures shown == RenderItems(items, child => Redact(h, child, depth + 1, old(seen.refs)))
    decreases MAX_DEPTH - depth, 0, 0
  {
    shown := [];
    for i := 0 to |items|
      invariant seen.refs == old(seen.refs)
      invariant |shown| == i && forall k :: 0 <= k < i ==> shown[k] == Redact(h, items[k], depth + 1, old(seen.refs))
    {
      var item := RedactValue(h, items[i], depth + 1, seen);
      shown := shown + [item];
    }
  }

  method RedactEntries(h: Heap, entries: seq<(string, Value)>, depth: nat, seen: SeenSet) returns (fields: seq<Field>)
    requires WellFormed(h) && depth < MAX_DEPTH && DistinctKeys(entries)
    modifies seen
    ensures seen.refs == old(seen.refs)
    ensures OutRecord(fields) == Render(Record(entries), child => Redact(h, child, depth + 1, old(seen.refs)))
    decreases MAX_DEPTH - depth, 0, 0
  {
    ghost var listed, child := FirstOf(entries, MAX_KEYS), (c: Value) => Redact(h, c, depth + 1, old(seen.refs));
    fields := [];
    var count := 0;
    while count < |entries|
      invariant count <= |listed| && seen.refs == old(seen.refs)
      invariant fields == RenderFields(listed[..count], child)
    {
      var (key, item) := entries[count];
      if count >= MAX_KEYS {
        assert listed[..count] == listed;
        fields := Put(fields, ELLIPSIS, OutText("[key limit]"));
        return;
      }
      var shown := OutText(REDACTED);
      if !IsSecretKey(key) {
        shown := RedactValue(h, item, depth + 1, seen);
      }
      OneMoreField(listed, count, child);
      PutAppends(fields, key, shown);
      fields := Put(fields, key, shown);
      count := count + 1;
    }
    assert listed[..count] == listed;
  }

  lemma OneMoreField(entries: seq<(string, Value)>, i: nat, child: Value -> Out)
    requires i < |entries| && DistinctKeys(entries)
    ensures RenderFields(entries[..i + 1], child) ==
            RenderFields(entries[..i], child) + [RenderField(entries[i], child)]
    ensures forall k :: 0 <= k < i ==> RenderFields(entries[..i], child)[k].key != entries[i].0
  {}

  /** The logger's entry point: nothing has been visited yet. */
  method RedactLog(h: Heap, v: Value) returns (out: Out)
    requires WellFormed(h)
    ensures out == RedactLogObject(h, v)
  {
    var seen := new SeenSet();
    out := RedactValue(h, v, 0, seen);
  }

  // ---- Secrets do not reach the output ----

  type Renaming = map<Ref, Ref>

  predicate Injective(ren: Renaming) {
    forall a, b :: a in ren && b in ren && ren[a] == ren[b] ==> a == b
  }

  ghost predicate DiffersIn(t: string, t': string, x: string, h: string, v: string, v': string, r: string) {
    t == x + h + v + r && t' == x + h + v' + r
  }

  /** Two texts that differ in one URL password, or in one query value without `@`, `:` and `/`. */
  ghost predicate OneSecretApart(t: string, t': string) {
    || (exists x, h, v, v', r :: Credential(UrlMatch, h, v, r) && Password(v') && DiffersIn(t, t', x, h, v, v', r))
    || (exists x, h, v, v', r ::
          Credential(QueryMatch, h, v, r) && Plain(v) && Plain(v') && DiffersIn(t, t', x, h, v, v', r))
  }

  ghost predicate LinkAt(texts: seq<string>, i: nat)
    requires i + 1 < |texts|
  {
    OneSecretApart(texts[i], texts[i + 1])
  }

  ghost predicate Chained(texts: seq<string>) { forall i :: 0 <= i < |texts| - 1 ==> LinkAt(texts, i) }

  /** Two texts that come from each other by changing one secret after the other. */
  ghost predicate TextsAlike(t: string, t': string) {
    exists texts :: texts != [] && texts[0] == t && texts[|texts| - 1] == t' && Chained(texts)
  }

  ghost predicate StacksAlike(s: Option<string>, s': Option<string>) {
    if s.Some? then s'.Some? && TextsAlike(s.value, s'.value) else s' == None
  }

  /** The same value, up to the secrets in a text and the identity of objects; these are among the renamed ones. */
  ghost predicate ValuesAlike(ren: Renaming, v: Value, v': Value) {
    match v
    case Object(r) => v'.Object? && r in ren && ren[r] == v'.ref
    case Text(t) => v'.Text? && TextsAlike(t, v'.text)
    case _ => v == v'
  }

  ghost predicate EntriesAlike(ren: Renaming, e: (string, Value), e': (string, Value)) {
    e.0 == e'.0 && (IsSecretKey(e.0) || ValuesAlike(ren, e.1, e'.1))
  }

  /**
   * The same object up to the identity of objects, to whatever stands under secret keys, and to the
   * secrets inside an error's message and stack.
   */
  ghost predicate NodesAlike(ren: Renaming, n: Node, n': Node) {
    match (n, n')
    case (Binary(k), Binary(k')) => k == k'
    case (List(items), List(items')) =>
      |items| == |items'| && forall i :: 0 <= i < |items| ==> ValuesAlike(ren, items[i], items'[i])
    case (Failure(name, message, stack, cause), Failure(name', message', stack', cause')) =>
      name == name' && TextsAlike(message, message') && StacksAlike(stack, stack') && ValuesAlike(ren, cause, cause')
    case (Record(entries), Record(entries')) =>
      |entries| == |entries'| && forall i :: 0 <= i < |entries| ==> EntriesAlike(ren, entries[i], entries'[i])
    case _ => false
  }

  /**
   * Two heaps that agree on every renamed object, except for the secrets in its texts and for the values
   * under secret keys. Those may be anything in either heap: other texts, other objects, objects of the
   * public part, cycles.
   */
  ghost predicate HeapsAlike(ren: Renaming, h: Heap, h': Heap) {
    Injective(ren) && forall r :: r in ren ==> r in h && ren[r] in h' && NodesAlike(ren, h[r], h'[ren[r]])
  }

  predicate AboveAlike(ren: Renaming, above: set<Ref>, above': set<Ref>) {
    forall r :: r in ren ==> (r in above <==> ren[r] in above')
  }

  lemma OneSecretHidden(t: string, t': string)
    requires OneSecretApart(t, t')
    ensures ScrubSecretsFromText(t) == ScrubSecretsFromText(t')
  {
    if x, h, v, v', r :| Credential(UrlMatch, h, v, r) && Password(v') && DiffersIn(t, t', x, h, v, v', r) {
      PasswordNeverShows(x, h, v, v', r);
    } else {
      var x, h, v, v', r :|
        Credential(QueryMatch, h, v, r) && Plain(v) && Plain(v') && DiffersIn(t, t', x, h, v, v', r);
      PlainValueNeverShows(x, h, v, v', r);
    }
  }

  lemma {:induction false} SecretsHidden(texts: seq<string>)
    requires texts != [] && Chained(texts)
    ensures ScrubSecretsFromText(texts[0]) == ScrubSecretsFromText(texts[|texts| - 1])
  {
    if |texts| == 1 {
    } else {
      forall i | 0 <= i < |texts[1..]| - 1 ensures LinkAt(texts[1..], i) {
        assert LinkAt(texts, i + 1);
      }
      assert LinkAt(texts, 0);
      OneSecretHidden(texts[0], texts[1]);
      SecretsHidden(texts[1..]);
    }
  }

  lemma AlikeScrubbed(t: string, t': string)
    requires TextsAlike(t, t')
    ensures ScrubSecretsFromText(t) == ScrubSecretsFromText(t')
  {
    var texts :| texts != [] && texts[0] == t && texts[|texts| - 1] == t' && Chained(texts);
    SecretsHidden(texts);
  }

  ghost predicate MapsAlike(ren: Renaming, f: Value -> Out, f': Value -> Out) {
    forall v, v' :: ValuesAlike(ren, v, v') ==> f(v) == f'(v')
  }

  lemma ListAlike(ren: Renaming, n: Node, n': Node, f: Value -> Out, f': Value -> Out)
    requires n.List? && NodesAlike(ren, n, n') && MapsAlike(ren, f, f')
    ensures Render(n, f) == Render(n', f')
  {
    var shown, shown' := FirstOf(n.items, MAX_ARRAY_ITEMS), FirstOf(n'.items, MAX_ARRAY_ITEMS);
    forall i | 0 <= i < |shown| ensures f(shown[i]) == f'(shown'[i]) {
      assert ValuesAlike(ren, n.items[i], n'.items[i]);
    }
    assert RenderItems(shown, f) == RenderItems(shown', f');
  }

  lemma FailurePartsAlike(ren: Renaming, n: Node, n': Node)
    requires n.Failure? && NodesAlike(ren, n, n')
    ensures n'.Failure? && n.name == n'.name && ValuesAlike(ren, n.cause, n'.cause)
    ensures ScrubSecretsFromText(n.message) == ScrubSecretsFromText(n'.message)
    ensures n.stack.Some? == n'.stack.Some?
    ensures n.stack.Some? ==> ScrubSecretsFromText(n.stack.value) == ScrubSecretsFromText(n'.stack.value)
  {
    AlikeScrubbed(n.message, n'.message);
    if n.stack.Some? {
      AlikeScrubbed(n.stack.value, n'.stack.value);
    }
  }

  lemma FailureAlike(ren: Renaming, n: Node, n': Node, f: Value -> Out, f': Value -> Out)
    requires n.Failure? && NodesAlike(ren, n, n') && MapsAlike(ren, f, f')
    ensures Render(n, f) == Render(n', f')
  {
    FailurePartsAlike(ren, n, n');
    assert f(n.cause) == f'(n'.cause) && n.cause.Undefined? == n'.cause.Undefined?;
  }

  lemma RecordAlike(ren: Renaming, n: Node, n': Node, f: Value -> Out, f': Value -> Out)
    requires n.Record? && NodesAlike(ren, n, n') && MapsAlike(ren, f, f')
    ensures Render(n, f) == Render(n', f')
  {
    var shown, shown' := FirstOf(n.entries, MAX_KEYS), FirstOf(n'.entries, MAX_KEYS);
    forall i | 0 <= i < |shown| ensures RenderField(shown[i], f) == RenderField(shown'[i], f') {
      assert EntriesAlike(ren, n.entries[i], n'.entries[i]);
    }
    assert RenderFields(shown, f) == RenderFields(shown', f');
  }

  /** Writing out two like objects gives the same, if writing out their like parts does. */
  lemma RenderAlike(ren: Renaming, n: Node, n': Node, f: Value -> Out, f': Value -> Out)
    requires NodesAlike(ren, n, n') && MapsAlike(ren, f, f')
    ensures Render(n, f) == Render(n', f')
  {
    match n
    case Binary(_) =>
    case Failure(_, _, _, _) => FailureAlike(ren, n, n', f, f');
    case List(_) => ListAlike(ren, n, n', f, f');
    case Record(_) => RecordAlike(ren, n, n', f, f');
  }

  lemma SameScrubbedSameText(t: string, t': string)
    requires ScrubSecretsFromText(t) == ScrubSecretsFromText(t')
    ensures RedactText(t) == RedactText(t')
  {}

  lemma TextsRedactedAlike(t: string, t': string)
    requires TextsAlike(t, t')
    ensures RedactText(t) == RedactText(t')
  {
    AlikeScrubbed(t, t');
    SameScrubbedSameText(t, t');
  }

  lemma TextWalked(h: Heap, t: string, depth: nat, above: set<Ref>)
    ensures Redact(h, Text(t), depth, above) == OutText(RedactText(t))
  {}

  lemma TextWalkedAlike(h: Heap, h': Heap, t: string, t': string, depth: nat, above: set<Ref>, above': set<Ref>)
    requires TextsAlike(t, t')
    ensures Redact(h, Text(t), depth, above) == Redact(h', Text(t'), depth, above')
  {
    TextsRedactedAlike(t, t');
    TextWalked(h, t, depth, above);
    TextWalked(h', t', depth, above');
  }

  /** Like objects that are not expanded are written alike. */
  lemma LeafAlike(ren: Renaming, h: Heap, h': Heap, r: Ref, depth: nat, above: set<Ref>, above': set<Ref>)
    requires HeapsAlike(ren, h, h') && AboveAlike(ren, above, above') && r in ren
    requires h[r].Binary? || depth >= MAX_DEPTH || r in above
    ensures Redact(h, Object(r), depth, above) == Redact(h', Object(ren[r]), depth, above')
  {
    assert NodesAlike(ren, h[r], h'[ren[r]]);
  }

  /** An object that is expanded in one heap is expanded in the other. */
  lemma InsideAlike(ren: Renaming, h: Heap, h': Heap, r: Ref, above: set<Ref>, above': set<Ref>)
    requires HeapsAlike(ren, h, h') && AboveAlike(ren, above, above') && r in ren && r !in above && !h[r].Binary?
    ensures ren[r] !in above' && !h'[ren[r]].Binary? && NodesAlike(ren, h[r], h'[ren[r]])
    ensures AboveAlike(ren, above + {r}, above' + {ren[r]})
  {}

  /**
   * What is logged does not depend on the values under secret keys, on the URL passwords and plain query
   * values inside any text, message or stack, nor on where objects live.
   */
  lemma {:induction false} SecretsDoNotMatter(ren: Renaming, h: Heap, h': Heap, v: Value, v': Value, depth: nat,
                                              above: set<Ref>, above': set<Ref>)
    requires HeapsAlike(ren, h, h') && ValuesAlike(ren, v, v') && AboveAlike(ren, above, above')
    ensures Redact(h, v, depth, above) == Redact(h', v', depth, above')
    decreases MAX_DEPTH - depth
  {
    if v.Text? {
      TextWalkedAlike(h, h', v.text, v'.text, depth, above, above');
    } else if !v.Object? {
    } else if h[v.ref].Binary? || depth >= MAX_DEPTH || v.ref in above {
      LeafAlike(ren, h, h', v.ref, depth, above, above');
    } else {
      var inside, inside' := above + {v.ref}, above' + {v'.ref};
      InsideAlike(ren, h, h', v.ref, above, above');
      var f, f' := (c: Value) => Redact(h, c, depth + 1, inside), (c: Value) => Redact(h', c, depth + 1, inside');
      forall c, c' | ValuesAlike(ren, c, c') ensures f(c) == f'(c') {
        SecretsDoNotMatter(ren, h, h', c, c', depth + 1, inside, inside');
      }
      RenderAlike(ren, h[v.ref], h'[v'.ref], f, f');
    }
  }

  /** In `out`, at every depth, each secret key has exactly the marker for a value. */
  predicate SecretsMarked(out: Out) {
    match out
    case OutList(items) => forall i :: 0 <= i < |items| ==> SecretsMarked(items[i])
    case OutRecord(fields) =>
      forall i :: 0 <= i < |fields| ==> FieldMarked(fields[i])
    case _ => true
  }

  predicate FieldMarked(field: Field) {
    SecretsMarked(field.value) && (IsSecretKey(field.key) ==> field.value == OutText(REDACTED))
  }

  lemma LastOfSuffix(i: nat)
    requires i < |SECRET_SUFFIXES|
    ensures var suffix := SECRET_SUFFIXES[i]; suffix != "" && suffix[|suffix| - 1] in {'d', 't', 'n', 'y'}
  {}

  lemma NotSecret(key: string, normalized: string)
    requires NormalizeKey(key) == normalized && normalized !in SECRET_KEYS
    requires normalized != "" ==> var c := normalized[|normalized| - 1]; c != 'd' && c != 't' && c != 'n' && c != 'y'
    ensures !IsSecretKey(key)
  {
    forall i | 0 <= i < |SECRET_SUFFIXES| ensures !EndsWith(normalized, SECRET_SUFFIXES[i]) {
      LastOfSuffix(i);
    }
  }

  lemma {:induction false} LowerCaseStays(key: string)
    requires forall k :: 0 <= k < |key| ==> 'a' <= key[k] <= 'z'
    ensures NormalizeKey(key) == key
  {
    if key == "" {
    } else {
      LowerCaseStays(key[1..]);
      FirstAndRest(key);
    }
  }

  lemma LowerCaseNotSecret(key: string)
    requires key != "" && forall k :: 0 <= k < |key| ==> 'a' <= key[k] <= 'z'
    requires key !in SECRET_KEYS && var c := key[|key| - 1]; c != 'd' && c != 't' && c != 'n' && c != 'y'
    ensures !IsSecretKey(key)
  {
    LowerCaseStays(key);
    NotSecret(key, key);
  }

  lemma MarkedField(key: string, value: Out)
    requires !IsSecretKey(key) && SecretsMarked(value)
    ensures SecretsMarked(OutRecord([Field(key, value)]))
  {
    assert FieldMarked(Field(key, value));
  }

  lemma TypeFieldMarked(value: Out)
    requires SecretsMarked(value)
    ensures SecretsMarked(OutRecord([Field("type", value)]))
  {
    LowerCaseNotSecret("type");
    MarkedField("type", value);
  }

  lemma MessageFieldMarked(value: Out)
    requires SecretsMarked(value)
    ensures SecretsMarked(OutRecord([Field("message", value)]))
  {
    LowerCaseNotSecret("message");
    MarkedField("message", value);
  }

  lemma StackFieldMarked(value: Out)
    requires SecretsMarked(value)
    ensures SecretsMarked(OutRecord([Field("stack", value)]))
  {
    LowerCaseNotSecret("stack");
    MarkedField("stack", value);
  }

  lemma CauseFieldMarked(value: Out)
    requires SecretsMarked(value)
    ensures SecretsMarked(OutRecord([Field("cause", value)]))
  {
    LowerCaseNotSecret("cause");
    MarkedField("cause", value);
  }

  lemma EllipsisNotSecret()
    ensures !IsSecretKey(ELLIPSIS)
  {
    NotSecret(ELLIPSIS, "");
  }

  lemma {:induction false} PutKeepsMarked(fields: seq<Field>, key: string, value: Out)
    requires SecretsMarked(OutRecord(fields)) && !IsSecretKey(key) && SecretsMarked(value)
    ensures SecretsMarked(OutRecord(Put(fields, key, value)))
  {
    if fields == [] || fields[0].key == key {
    } else {
      assert SecretsMarked(OutRecord(fields[1..]));
      PutKeepsMarked(fields[1..], key, value);
    }
  }

  lemma MarkedConcat(a: seq<Field>, b: seq<Field>)
    requires SecretsMarked(OutRecord(a)) && SecretsMarked(OutRecord(b))
    ensures SecretsMarked(OutRecord(a + b))
  {
    forall i | 0 <= i < |a + b| ensures FieldMarked((a + b)[i]) {
      assert (a + b)[i] == if i < |a| then a[i] else b[i - |a|];
    }
  }

  lemma ErrorMarks(t: Field, m: Field, s: Field, c: Field)
    requires SecretsMarked(OutRecord([t])) && SecretsMarked(OutRecord([m]))
    requires SecretsMarked(OutRecord([s])) && SecretsMarked(OutRecord([c]))
    ensures SecretsMarked(OutRecord([t, m, s])) && SecretsMarked(OutRecord([t, m, s, c]))
  {
    MarkedConcat([t], [m]);
    MarkedConcat([t] + [m], [s]);
    MarkedConcat([t] + [m] + [s], [c]);
    assert [t, m, s] == [t] + [m] + [s] && [t, m, s, c] == [t] + [m] + [s] + [c];
  }

  lemma ErrorRenderMarks(name: string, message: string, stack: Option<string>, cause: Value, f: Value -> Out)
    requires SecretsMarked(f(cause))
    ensures SecretsMarked(Render(Failure(name, message, stack, cause), f))
  {
    var fields := Render(Failure(name, message, stack, cause), f).fields;
    var c := Field("cause", f(cause));
    TypeFieldMarked(fields[0].value);
    MessageFieldMarked(fields[1].value);
    StackFieldMarked(fields[2].value);
    CauseFieldMarked(f(cause));
    ErrorMarks(fields[0], fields[1], fields[2], c);
    assert fields == if cause.Undefined? then [fields[0], fields[1], fields[2]]
           else [fields[0], fields[1], fields[2], c];
  }

  lemma RenderMarks(node: Node, f: Value -> Out)
    requires forall v :: SecretsMarked(f(v))
    ensures SecretsMarked(Render(node, f))
  {
    match node
    case Binary(_) =>
    case List(_) =>
    case Failure(name, message, stack, cause) =>
      ErrorRenderMarks(name, message, stack, cause, f);
    case Record(entries) =>
      EllipsisNotSecret();
      PutKeepsMarked(RenderFields(FirstOf(entries, MAX_KEYS), f), ELLIPSIS, OutText("[key limit]"));
  }

  /** No secret key anywhere in the output has a value other than the marker. */
  lemma {:induction false} EverySecretKeyIsMarked(h: Heap, v: Value, depth: nat, above: set<Ref>)
    ensures SecretsMarked(Redact(h, v, depth, above))
    decreases MAX_DEPTH - depth
  {
    if v.Object? && v.ref in h {
      if h[v.ref].Binary? {
        RenderMarks(h[v.ref], _ => OutUndefined);
      } else if depth < MAX_DEPTH && v.ref !in above {
        var f := (c: Value) => Redact(h, c, depth + 1, above + {v.ref});
        forall c: Value ensures SecretsMarked(f(c)) {
          EverySecretKeyIsMarked(h, c, depth + 1, above + {v.ref});
        }
        RenderMarks(h[v.ref], f);
      }
    }
  }

  // ---- Cycles ----

  /**
   * The value that is walked for position `i` of an object's output, if any: list items, the entries
   * that are neither secret nor overwritten by the key limit, and an error's cause, which stands
   * fourth.
   */
  function ChildAt(node: Node, i: nat): Option<Value> {
    match node
    case Binary(_) => None
    case List(items) => if i < |FirstOf(items, MAX_ARRAY_ITEMS)| then Some(items[i]) else None
    case Failure(_, _, _, cause) => if i == 3 && !cause.Undefined? then Some(cause) else None
    case Record(entries) =>
      if i < |FirstOf(entries, MAX_KEYS)| && !IsSecretKey(entries[i].0)
          && (|entries| > MAX_KEYS ==> entries[i].0 != ELLIPSIS)
      then Some(entries[i].1)
      else None
  }

  function PartAt(out: Out, i: nat): Option<Out> {
    match out
    case OutList(items) => if i < |items| then Some(items[i]) else None
    case OutRecord(fields) => if i < |fields| then Some(fields[i].value) else None
    case _ => None
  }

  /** The value at the end of a path of positions. */
  function ValueAt(h: Heap, v: Value, path: seq<nat>): Option<Value>
    decreases |path|
  {
    if path == [] then Some(v)
    else if !v.Object? || v.ref !in h then None
    else match ChildAt(h[v.ref], path[0])
      case None => None
      case Some(child) => ValueAt(h, child, path[1..])
  }

  /** What the output holds at the end of a path of positions. */
  function OutAt(out: Out, path: seq<nat>): Option<Out>
    decreases |path|
  {
    if path == [] then Some(out)
    else match PartAt(out, path[0])
      case None => None
      case Some(part) => OutAt(part, path[1..])
  }

  /** The objects on the path, from the first one down to the one that holds its end. */
  function ObjectsOn(h: Heap, v: Value, path: seq<nat>): seq<Ref>
    requires ValueAt(h, v, path).Some?
    decreases |path|
  {
    if path == [] then []
    else [v.ref] + ObjectsOn(h, ChildAt(h[v.ref], path[0]).value, path[1..])
  }

  predicate NoneTwice(refs: seq<Ref>, above: set<Ref>) {
    (forall i :: 0 <= i < |refs| ==> refs[i] !in above) && forall i, j :: 0 <= i < j < |refs| ==> refs[i] != refs[j]
  }

  predicate KeyAt(fields: seq<Field>, key: string, i: nat)
    requires i < |fields|
  {
    fields[i].key == key && forall k :: 0 <= k < i ==> fields[k].key != key
  }

  lemma KeyAtBehind(fields: seq<Field>, key: string, i: nat)
    requires i + 1 < |fields| && fields[0].key != key
    ensures KeyAt(fields[1..], key, i) <==> KeyAt(fields, key, i + 1)
  {
    assert KeyAt(fields[1..], key, i) ==> forall k :: 0 < k < i + 1 ==> fields[k] == fields[1..][k - 1];
    assert KeyAt(fields, key, i + 1) ==> forall k :: 0 <= k < i ==> fields[1..][k] == fields[k + 1];
  }

  lemma {:induction false} PutKeeps(fields: seq<Field>, key: string, value: Out, i: nat)
    requires i < |fields|
    ensures i < |Put(fields, key, value)|
    ensures Put(fields, key, value)[i] == if KeyAt(fields, key, i) then Field(key, value) else fields[i]
  {
    if fields[0].key == key {
    } else if i > 0 {
      KeyAtBehind(fields, key, i - 1);
      PutKeeps(fields[1..], key, value, i - 1);
    }
  }

  lemma {:induction false} PutInPlace(fields: seq<Field>, key: string, value: Out, i: nat)
    requires i < |fields| && KeyAt(fields, key, i)
    ensures |Put(fields, key, value)| == |fields|
  {
    if i > 0 {
      KeyAtBehind(fields, key, i - 1);
      PutInPlace(fields[1..], key, value, i - 1);
    }
  }

  lemma {:induction false} FirstKey(fields: seq<Field>, key: string, k: nat) returns (i: nat)
    requires k < |fields| && fields[k].key == key
    ensures i < |fields| && KeyAt(fields, key, i)
  {
    if j :| 0 <= j < k && fields[j].key == key {
      i := FirstKey(fields, key, j);
    } else {
      i := k;
    }
  }

  /** The field goes to the first place with its key, or behind the others; the others stay. */
  lemma PutExactly(fields: seq<Field>, key: string, value: Out)
    ensures var put := Put(fields, key, value);
            && (if exists i :: 0 <= i < |fields| && KeyAt(fields, key, i) then |put| == |fields|
                else |put| == |fields| + 1 && put[|fields|] == Field(key, value))
            && forall i :: 0 <= i < |fields| ==>
                 put[i] == if KeyAt(fields, key, i) then Field(key, value) else fields[i]
  {
    if k :| 0 <= k < |fields| && fields[k].key == key {
      var i := FirstKey(fields, key, k);
      PutInPlace(fields, key, value, i);
    } else {
      PutAppends(fields, key, value);
    }
    forall i | 0 <= i < |fields| ensures i < |Put(fields, key, value)|
      && Put(fields, key, value)[i] == if KeyAt(fields, key, i) then Field(key, value) else fields[i]
    {
      PutKeeps(fields, key, value, i);
    }
  }

  /** What is written at a position is what the walk writes for the value there. */
  lemma PartIsChild(node: Node, f: Value -> Out, i: nat)
    requires ChildAt(node, i).Some?
    ensures PartAt(Render(node, f), i) == Some(f(ChildAt(node, i).value))
  {
    match node
    case List(items) =>
      assert FirstOf(items, MAX_ARRAY_ITEMS)[i] == items[i];
    case Failure(_, _, _, _) =>
    case Record(entries) =>
      var shown := RenderFields(FirstOf(entries, MAX_KEYS), f);
      assert FirstOf(entries, MAX_KEYS)[i] == entries[i];
      assert shown[i] == Field(entries[i].0, f(entries[i].1));
      if |entries| > MAX_KEYS {
        PutExactly(shown, ELLIPSIS, OutText("[key limit]"));
      }
  }

  lemma NoneTwiceBehind(r: Ref, refs: seq<Ref>, above: set<Ref>)
    ensures NoneTwice([r] + refs, above) <==> r !in above && NoneTwice(refs, above + {r})
  {
    var all := [r] + refs;
    assert all[0] == r && forall i :: 0 <= i < |refs| ==> all[i + 1] == refs[i];
    if NoneTwice(all, above) {
      forall i | 0 <= i < |refs| ensures refs[i] !in above + {r} {
        assert all[i + 1] !in above && all[0] != all[i + 1];
      }
      forall i, j | 0 <= i < j < |refs| ensures refs[i] != refs[j] {
        assert all[i + 1] != all[j + 1];
      }
    }
  }

  /** One step down, in the output and in the heap. */
  lemma StepDown(h: Heap, r: Ref, path: seq<nat>, depth: nat, above: set<Ref>)
    requires r in h && path != [] && ChildAt(h[r], path[0]).Some?
    ensures var child := ChildAt(h[r], path[0]).value;
            OutAt(Redact(h, Object(r), depth, above), path)
            == if depth < MAX_DEPTH && r !in above then OutAt(Redact(h, child, depth + 1, above + {r}), path[1..])
                else None
  {
    if depth < MAX_DEPTH && r !in above {
      PartIsChild(h[r], c => Redact(h, c, depth + 1, above + {r}), path[0]);
    }
  }

  // ---- What is written for each value ----

  /** A text is scrubbed; of a long one the first 2048 characters stay, and its length is told. */
  predicate TextWritten(text: string, shown: string) {
    var scrubbed := ScrubSecretsFromText(text);
    if |scrubbed| <= 2048 then shown == scrubbed
    else shown == scrubbed[..2048] + "\U{2026}[truncated " + Decimal(|scrubbed|) + " chars]"
  }

  /** At most fifty items, then how many are left out. */
  predicate ListWritten(items: seq<Value>, shown: seq<Out>) {
    if |items| <= 50 then |shown| == |items|
    else |shown| == 51 && shown[50] == OutText("[" + Decimal(|items| - 50) + " more items]")
  }

  predicate FailureWritten(name: string, message: string, stack: Option<string>, cause: Value, fields: seq<Field>) {
    && |fields| == (if cause.Undefined? then 3 else 4)
    && fields[0] == Field("type", OutText(name))
    && fields[1] == Field("message", OutText(ScrubSecretsFromText(message)))
    && fields[2].key == "stack"
    && fields[2].value == (if stack.Some? then OutText(ScrubSecretsFromText(stack.value)) else OutUndefined)
    && (!cause.Undefined? ==> fields[3].key == "cause")
  }

  /** The key stays; a secret one gets the marker. */
  predicate KeyWritten(key: string, field: Field) {
    field.key == key && (IsSecretKey(key) ==> field.value == OutText("[redacted]"))
  }

  /** The first key that reads like the one of the key limit. */
  predicate LimitAt(entries: seq<(string, Value)>, i: nat)
    requires i < |entries|
  {
    entries[i].0 == "\U{2026}" && forall k :: 0 <= k < i ==> entries[k].0 != "\U{2026}"
  }

  /** At most a hundred keys in their order; then a field that says so, at its key's place if that is among them. */
  predicate RecordWritten(entries: seq<(string, Value)>, fields: seq<Field>) {
    var limit := Field("\U{2026}", OutText("[key limit]"));
    if |entries| <= 100 then
      |fields| == |entries| && forall i :: 0 <= i < |entries| ==> KeyWritten(entries[i].0, fields[i])
    else
      && (if exists i :: 0 <= i < 100 && LimitAt(entries, i) then |fields| == 100
          else |fields| == 101 && fields[100] == limit)
      && forall i :: 0 <= i < 100 ==>
           if LimitAt(entries, i) then fields[i] == limit else KeyWritten(entries[i].0, fields[i])
  }

  predicate NodeWritten(node: Node, out: Out) {
    match node
    case Binary(n) => out == OutText("[binary " + Decimal(n) + " bytes]")
    case List(items) => out.OutList? && ListWritten(items, out.items)
    case Failure(name, message, stack, cause) =>
      out.OutRecord? && FailureWritten(name, message, stack, cause, out.fields)
    case Record(entries) => out.OutRecord? && RecordWritten(entries, out.fields)
  }

  /** What is written for `v` at the given depth; `inside` tells whether it is an object inside itself. */
  predicate Written(h: Heap, v: Value, depth: nat, inside: bool, out: Out) {
    match v
    case Null => out == OutNull
    case Undefined => out == OutUndefined
    case Primitive(id) => out == OutPrimitive(id)
    case Text(text) => out.OutText? && TextWritten(text, out.text)
    case Object(r) =>
      if r !in h then out == OutUndefined
      else if h[r].Binary? then NodeWritten(h[r], out)
      else if depth == 8 then out == OutText("[depth limit]")
      else if inside then out == OutText("[circular]")
      else NodeWritten(h[r], out)
  }

  lemma RecordIsWritten(entries: seq<(string, Value)>, f: Value -> Out)
    ensures NodeWritten(Record(entries), Render(Record(entries), f))
  {
    var listed := FirstOf(entries, MAX_KEYS);
    var shown := RenderFields(listed, f);
    assert forall i :: 0 <= i < |shown| ==> listed[i] == entries[i] && KeyWritten(entries[i].0, shown[i]);
    if |entries| > 100 {
      PutExactly(shown, ELLIPSIS, OutText("[key limit]"));
      forall i | 0 <= i < 100 ensures KeyAt(shown, ELLIPSIS, i) <==> LimitAt(entries, i) {}
    }
  }

  lemma NodeIsWritten(node: Node, f: Value -> Out)
    ensures NodeWritten(node, Render(node, f))
  {
    match node
    case Binary(_) =>
    case List(_) =>
    case Failure(_, _, _, _) =>
    case Record(entries) => RecordIsWritten(entries, f);
  }

  lemma ValueIsWritten(h: Heap, v: Value, depth: nat, above: set<Ref>)
    requires depth <= MAX_DEPTH
    ensures Written(h, v, depth, v.Object? && v.ref in above, Redact(h, v, depth, above))
  {
    if v.Object? && v.ref in h {
      if h[v.ref].Binary? {
        NodeIsWritten(h[v.ref], _ => OutUndefined);
      } else if depth < MAX_DEPTH && v.ref !in above {
        NodeIsWritten(h[v.ref], child => Redact(h, child, depth + 1, above + {v.ref}));
      }
    }
  }

  /** What stands at depth `n` for the value `w`, with `refs` on the way to it below the objects `above`. */
  predicate StandsAt(out: Option<Out>, h: Heap, w: Value, n: nat, refs: seq<Ref>, above: set<Ref>) {
    && (out.Some? <==> n <= 8 && NoneTwice(refs, above))
    && (out.Some? ==> Written(h, w, n, w.Object? && (w.ref in above || w.ref in refs), out.value))
  }

  /** Behind an object that is expanded, the same stands there; behind one that is not, nothing does. */
  lemma StandsBehind(out: Option<Out>, h: Heap, w: Value, n: nat, r: Ref, refs: seq<Ref>, above: set<Ref>)
    requires r !in above && n <= 8 ==> StandsAt(out, h, w, n, refs, above + {r})
    requires r in above || n > 8 ==> out == None
    ensures StandsAt(out, h, w, n, [r] + refs, above)
  {
    NoneTwiceBehind(r, refs, above);
  }

  lemma {:induction false} WrittenAt(h: Heap, v: Value, path: seq<nat>, depth: nat, above: set<Ref>)
    requires ValueAt(h, v, path).Some? && depth <= MAX_DEPTH
    ensures StandsAt(OutAt(Redact(h, v, depth, above), path), h, ValueAt(h, v, path).value, depth + |path|,
                     ObjectsOn(h, v, path), above)
    decreases |path|
  {
    if path == [] {
      ValueIsWritten(h, v, depth, above);
    } else {
      var r, child := v.ref, ChildAt(h[v.ref], path[0]).value;
      var out := OutAt(Redact(h, v, depth, above), path);
      StepDown(h, r, path, depth, above);
      if depth < MAX_DEPTH && r !in above {
        WrittenAt(h, child, path[1..], depth + 1, above + {r});
      }
      StandsBehind(out, h, ValueAt(h, v, path).value, depth + |path|, r, ObjectsOn(h, child, path[1..]), above);
    }
  }

  /**
   * Followed through the heap and through the output alike, a path is there in the output exactly if it
   * is no longer than the depth limit and meets no object twice on its way. The value there and its depth
   * decide what stands at its end: texts, messages and stacks are scrubbed, long texts, lists and records
   * are cut, and an object that is already on the path is `[circular]`.
   */
  lemma EveryPosition(h: Heap, v: Value, path: seq<nat>)
    requires ValueAt(h, v, path).Some?
    ensures var out, w, refs := OutAt(RedactLogObject(h, v), path), ValueAt(h, v, path).value, ObjectsOn(h, v, path);
            && (out.Some? <==> |path| <= 8 && NoneTwice(refs, {}))
            && (out.Some? ==> Written(h, w, |path|, w.Object? && w.ref in refs, out.value))
  {
    WrittenAt(h, v, path, 0, {});
  }

  /** `[circular]` stands for an object exactly if, above the depth limit, that object is already on its path. */
  lemma CircularExactlyOnItsPath(h: Heap, v: Value, path: seq<nat>)
    requires ValueAt(h, v, path).Some? && ValueAt(h, v, path).value.Object?
    requires var r := ValueAt(h, v, path).value.ref; r in h && !h[r].Binary?
    ensures var out, refs := OutAt(RedactLogObject(h, v), path), ObjectsOn(h, v, path);
            var r := ValueAt(h, v, path).value.ref;
            && (out.Some? <==> |path| <= 8 && NoneTwice(refs, {}))
            && (out.Some? ==> (out.value == OutText("[circular]") <==> |path| < 8 && r in refs))
  {
    EveryPosition(h, v, path);
  }

  function Children(node: Node): set<Value> {
    match node
    case Binary(_) => {}
    case List(items) => set i | 0 <= i < |items| :: items[i]
    case Failure(_, _, _, cause) => {cause}
    case Record(entries) => set i | 0 <= i < |entries| :: entries[i].1
  }

  /** The walk without its set of visited objects. */
  function Expand(h: Heap, v: Value, depth: nat): Out
    decreases MAX_DEPTH - depth
  {
    if !v.Object? || v.ref !in h || h[v.ref].Binary? || depth >= MAX_DEPTH then Redact(h, v, depth, {})
    else Render(h[v.ref], child => Expand(h, child, depth + 1))
  }

  /** A ranking of the objects that goes down along every reference: there are no cycles. */
  predicate Ranks(rank: map<Ref, nat>, h: Heap) {
    forall r :: r in h ==>
      r in rank && forall c :: c in Children(h[r]) && c.Object? && c.ref in h ==> c.ref in rank && rank[c.ref] < rank[r]
  }

  lemma RenderSame(node: Node, f: Value -> Out, f': Value -> Out)
    requires forall c :: c in Children(node) ==> f(c) == f'(c)
    ensures Render(node, f) == Render(node, f')
  {
    match node
    case Binary(_) =>
    case Failure(_, _, _, _) =>
    case List(items) =>
      var shown := FirstOf(items, MAX_ARRAY_ITEMS);
      forall i | 0 <= i < |shown| ensures f(shown[i]) == f'(shown[i]) {
        assert shown[i] == items[i] && items[i] in Children(node);
      }
      assert RenderItems(shown, f) == RenderItems(shown, f');
    case Record(entries) =>
      var shown := FirstOf(entries, MAX_KEYS);
      forall i | 0 <= i < |shown| ensures RenderField(shown[i], f) == RenderField(shown[i], f') {
        assert shown[i] == entries[i] && entries[i].1 in Children(node);
      }
      assert RenderFields(shown, f) == RenderFields(shown, f');
  }

  /**
   * In a heap without cycles the set of visited objects never changes the result, however much is
   * shared: an object that occurs twice is written out twice.
   */
  lemma {:induction false} SharingIsExpanded(h: Heap, rank: map<Ref, nat>, v: Value, depth: nat, above: set<Ref>)
    requires Ranks(rank, h)
    requires v.Object? && v.ref in h ==> forall a :: a in above && a in rank ==> rank[v.ref] < rank[a]
    ensures Redact(h, v, depth, above) == Expand(h, v, depth)
    decreases MAX_DEPTH - depth
  {
    if v.Object? && v.ref in h && !h[v.ref].Binary? && depth < MAX_DEPTH {
      var r := v.ref;
      assert r !in above;
      var f, f' := (c: Value) => Redact(h, c, depth + 1, above + {r}), (c: Value) => Expand(h, c, depth + 1);
      forall c | c in Children(h[r]) ensures f(c) == f'(c) {
        SharingIsExpanded(h, rank, c, depth + 1, above + {r});
      }
      RenderSame(h[r], f, f');
    }
  }

  // ---- The size of a log line ----

  function Size(out: Out): (n: nat)
    ensures n >= 1
  {
    match out
    case OutList(items) => 1 + SizeOfItems(items)
    case OutRecord(fields) => 1 + SizeOfFields(fields)
    case _ => 1
  }

  function SizeOfItems(items: seq<Out>): nat {
    if items == [] then 0 else Size(items[0]) + SizeOfItems(items[1..])
  }

  function SizeOfFields(fields: seq<Field>): nat {
    if fields == [] then 0 else SizeOfField(fields[0]) + SizeOfFields(fields[1..])
  }

  function SizeOfField(field: Field): nat { Size(field.value) }

  /** The most nodes the walk can write for a value at the given depth. */
  function SizeLimit(depth: nat): (n: nat)
    ensures n >= 1
    decreases MAX_DEPTH - depth
  {
    if depth >= MAX_DEPTH then 1 else 2 + MAX_KEYS * SizeLimit(depth + 1)
  }

  lemma {:induction false} ItemsWithin(items: seq<Out>, n: nat)
    requires forall i :: 0 <= i < |items| ==> Size(items[i]) <= n
    ensures SizeOfItems(items) <= |items| * n
  {
    if items == [] {
    } else {
      ItemsWithin(items[1..], n);
      assert |items| * n == n + |items[1..]| * n;
    }
  }

  lemma {:induction false} FieldsWithin(fields: seq<Field>, n: nat)
    requires forall i :: 0 <= i < |fields| ==> SizeOfField(fields[i]) <= n
    ensures SizeOfFields(fields) <= |fields| * n
  {
    if fields == [] {
    } else {
      FieldsWithin(fields[1..], n);
      assert |fields| * n == n + |fields[1..]| * n;
    }
  }

  lemma {:induction false} ItemsConcat(a: seq<Out>, b: seq<Out>)
    ensures SizeOfItems(a + b) == SizeOfItems(a) + SizeOfItems(b)
  {
    if a == [] {
      NothingAdded(b);
    } else {
      ItemsConcat(a[1..], b);
      RestOfConcat(a, b);
    }
  }

  lemma {:induction false} PutSize(fields: seq<Field>, key: string, value: Out)
    ensures SizeOfFields(Put(fields, key, value)) <= SizeOfFields(fields) + Size(value)
    ensures (forall i :: 0 <= i < |fields| ==> fields[i].key != key) ==>
              SizeOfFields(Put(fields, key, value)) == SizeOfFields(fields) + Size(value)
  {
    if fields == [] {
    } else {
      PutSize(fields[1..], key, value);
      assert Put(fields, key, value)[1..] == if fields[0].key == key then fields[1..] else Put(fields[1..], key, value);
    }
  }

  lemma {:induction false} FieldsConcat(a: seq<Field>, b: seq<Field>)
    ensures SizeOfFields(a + b) == SizeOfFields(a) + SizeOfFields(b)
  {
    if a == [] {
      NothingAdded(b);
    } else {
      FieldsConcat(a[1..], b);
      RestOfConcat(a, b);
    }
  }

  lemma ErrorWithin(name: string, message: string, stack: Option<string>, cause: Value, f: Value -> Out, n: nat)
    requires Size(f(cause)) <= n
    ensures Size(Render(Failure(name, message, stack, cause), f)) <= 4 + n
  {
    var fields := Render(Failure(name, message, stack, cause), f).fields;
    var last := if cause.Undefined? then [] else [Field("cause", f(cause))];
    FieldsConcat(fields[..3], last);
    assert fields == fields[..3] + last;
    forall i | 0 <= i < 3 ensures SizeOfField(fields[..3][i]) == 1 {}
    FieldsExactly(fields[..3], 1);
    assert |last| == 1 ==> last[1..] == [];
  }

  lemma MoreIsMore(k: nat, m: nat, n: nat)
    requires k <= m
    ensures k * n <= m * n
  {}

  lemma ListWithin(items: seq<Value>, f: Value -> Out, n: nat)
    requires n >= 1 && forall v :: Size(f(v)) <= n
    ensures Size(Render(List(items), f)) <= 2 + MAX_ARRAY_ITEMS * n
  {
    var shown := RenderItems(FirstOf(items, MAX_ARRAY_ITEMS), f);
    ItemsWithin(shown, n);
    MoreIsMore(|shown|, MAX_ARRAY_ITEMS, n);
    if |items| > MAX_ARRAY_ITEMS {
      var more := OutText("[" + Decimal(|items| - MAX_ARRAY_ITEMS) + " more items]");
      ItemsConcat(shown, [more]);
      assert SizeOfItems([more]) == 1;
    }
  }

  lemma RecordWithin(entries: seq<(string, Value)>, f: Value -> Out, n: nat)
    requires n >= 1 && forall v :: Size(f(v)) <= n
    ensures Size(Render(Record(entries), f)) <= 2 + MAX_KEYS * n
  {
    var shown := RenderFields(FirstOf(entries, MAX_KEYS), f);
    FieldsWithin(shown, n);
    PutSize(shown, ELLIPSIS, OutText("[key limit]"));
    MoreIsMore(|shown|, MAX_KEYS, n);
  }

  lemma RenderWithin(node: Node, f: Value -> Out, n: nat)
    requires n >= 1 && forall v :: Size(f(v)) <= n
    ensures Size(Render(node, f)) <= 2 + MAX_KEYS * n
  {
    match node
    case Binary(_) =>
    case List(items) => ListWithin(items, f, n);
    case Failure(name, message, stack, cause) => ErrorWithin(name, message, stack, cause, f, n);
    case Record(entries) => RecordWithin(entries, f, n);
  }

  /** However large or cyclic the heap is, the walk writes at most `SizeLimit(0)` nodes. */
  lemma {:induction false} OutputIsBounded(h: Heap, v: Value, depth: nat, above: set<Ref>)
    ensures Size(Redact(h, v, depth, above)) <= SizeLimit(depth)
    decreases MAX_DEPTH - depth
  {
    if v.Object? && v.ref in h && !h[v.ref].Binary? && depth < MAX_DEPTH && v.ref !in above {
      var f := (c: Value) => Redact(h, c, depth + 1, above + {v.ref});
      forall c: Value ensures Size(f(c)) <= SizeLimit(depth + 1) {
        OutputIsBounded(h, c, depth + 1, above + {v.ref});
      }
      RenderWithin(h[v.ref], f, SizeLimit(depth + 1));
    }
  }

  /** A hundred and one different keys that hold no secret. */
  function LadderKey(i: nat): string
    requires i <= MAX_KEYS
  {
    [(0x400 + i) as char]
  }

  function Rung(next: Ref): Node {
    Record(seq(MAX_KEYS + 1, i requires 0 <= i <= MAX_KEYS => (LadderKey(i), Object(next))))
  }

  /** Objects 0 to `n`, each of which refers to the next one under every key. */
  function Ladder(n: nat): (h: Heap)
    ensures forall r: Ref :: (r in h <==> r <= n) && (r in h ==> h[r] == Rung(r + 1))
  {
    if n == 0 then map[0 := Rung(1)] else Ladder(n - 1)[n := Rung(n + 1)]
  }

  lemma {:induction false} FieldsExactly(fields: seq<Field>, n: nat)
    requires forall i :: 0 <= i < |fields| ==> SizeOfField(fields[i]) == n
    ensures SizeOfFields(fields) == |fields| * n
  {
    if fields == [] {
    } else {
      FieldsExactly(fields[1..], n);
      assert |fields| * n == n + |fields[1..]| * n;
    }
  }

  lemma RungSize(next: Ref, f: Value -> Out)
    ensures Size(Render(Rung(next), f)) == 2 + MAX_KEYS * Size(f(Object(next)))
  {
    var entries := Rung(next).entries;
    var listed := FirstOf(entries, MAX_KEYS);
    var shown := RenderFields(listed, f);
    forall i | 0 <= i < |shown| ensures SizeOfField(shown[i]) == Size(f(Object(next))) && shown[i].key != ELLIPSIS {
      assert listed[i] == entries[i] == (LadderKey(i), Object(next));
      NotSecret(LadderKey(i), "");
    }
    FieldsExactly(shown, Size(f(Object(next))));
    PutSize(shown, ELLIPSIS, OutText("[key limit]"));
  }

  lemma RungWalked(h: Heap, r: Ref, depth: nat, above: set<Ref>, n: nat)
    requires r in h && h[r] == Rung(r + 1) && depth < MAX_DEPTH && r !in above
    requires Size(Redact(h, Object(r + 1), depth + 1, above + {r})) == n
    ensures Size(Redact(h, Object(r), depth, above)) == 2 + MAX_KEYS * n
  {
    RungSize(r + 1, child => Redact(h, child, depth + 1, above + {r}));
  }

  lemma {:induction false} LadderSize(h: Heap, depth: nat, above: set<Ref>)
    requires depth <= MAX_DEPTH && forall a :: a in above ==> a < depth
    requires forall r: Ref :: r <= MAX_DEPTH ==> r in h && h[r] == Rung(r + 1)
    ensures Size(Redact(h, Object(depth), depth, above)) == SizeLimit(depth)
    decreases MAX_DEPTH - depth
  {
    assert h[depth] == Rung(depth + 1);
    if depth < MAX_DEPTH {
      LadderSize(h, depth + 1, above + {depth});
      RungWalked(h, depth, depth, above, SizeLimit(depth + 1));
    }
  }

  /** The bound is reached: nine objects are enough to log `SizeLimit(0)` nodes. */
  lemma BoundIsReached()
    ensures Size(RedactLogObject(Ladder(MAX_DEPTH), Object(0))) == SizeLimit(0)
  {
    LadderSize(Ladder(MAX_DEPTH), 0, {});
  }
}
