/** The resource check over an explicit stack, bounded canonical printing, exact-type equality, and
    the parser built from them: what each accepts and how they undo one another. */
module JsonCodec {
  import opened Wrappers
  import opened Numbers
  import opened Ordering
  import opened Utf8
  import opened Json
  import opened JsonDecoder
  import opened JsonGrammar
  import opened JsonScanner

  const MAX_ATTESTATION_BYTES := 8 * 1024 * 1024
  const MAX_JSON_STRING_BYTES := 1024 * 1024
  const MAX_JSON_INTEGER_DIGITS := 128

  // ----- _validate_json_resources

  /** The limits on contents whose topmost values sit `depth` levels down. */
  predicate Within(shape: Shape, depth: nat) {
    depth + shape.height <= MAX_JSON_DEPTH && shape.text <= MAX_JSON_STRING_BYTES && shape.encodable
  }

  predicate ResourcesOk(shape: Shape) { shape.nodes <= MAX_JSON_NODES && Within(shape, 0) }

  ghost function StackNodes(stack: seq<(Json, nat)>): nat {
    if stack == [] then 0 else StackNodes(stack[..|stack|-1]) + ShapeOf(stack[|stack|-1].0).nodes
  }

  ghost predicate StackWithin(stack: seq<(Json, nat)>) {
    forall i :: 0 <= i < |stack| ==> Within(ShapeOf(stack[i].0), stack[i].1)
  }

  /** Whether the check still succeeds with these nodes counted, these entries to visit, and contents
      of this shape yet to be pushed `depth` levels down. */
  ghost predicate Passes(nodes: nat, stack: seq<(Json, nat)>, pending: Shape, depth: nat) {
    nodes + StackNodes(stack) + pending.nodes <= MAX_JSON_NODES && StackWithin(stack) && Within(pending, depth)
  }

  predicate TextOk(s: Text) { Encodable(s) && |Encode(s)| <= MAX_JSON_STRING_BYTES }

  lemma WithinMerge(a: Shape, b: Shape, depth: nat)
    ensures Within(Merge(a, b), depth) <==> Within(a, depth) && Within(b, depth)
  {
  }

  lemma PushPasses(nodes: nat, stack: seq<(Json, nat)>, v: Json, pending: Shape, depth: nat)
    ensures Passes(nodes, stack, Merge(ShapeOf(v), pending), depth)
       <==> Passes(nodes, stack + [(v, depth)], pending, depth)
    ensures StackNodes(stack + [(v, depth)]) == StackNodes(stack) + ShapeOf(v).nodes
  {
    var pushed := stack + [(v, depth)];
    assert pushed[..|stack|] == stack;
    WithinMerge(ShapeOf(v), pending, depth);
    hide Within, ShapeOf;
    assert StackWithin(pushed) <==> StackWithin(stack) && Within(ShapeOf(v), depth) by {
      assert forall i :: 0 <= i < |stack| ==> pushed[i] == stack[i];
      assert pushed[|stack|] == (v, depth);
    }
  }

  lemma PushMemberPasses(nodes: nat, stack: seq<(Json, nat)>, m: Member, pending: Shape, depth: nat)
    requires depth <= MAX_JSON_DEPTH + 1
    ensures Passes(nodes, stack, Merge(ShapeOfMember(m), pending), depth)
       <==> TextOk(m.key) && Passes(nodes, stack + [(m.value, depth)], pending, depth)
    ensures StackNodes(stack + [(m.value, depth)]) == StackNodes(stack) + ShapeOf(m.value).nodes
  {
    PushPasses(nodes, stack, m.value, pending, depth);
  }

  lemma PopPasses(nodes: nat, stack: seq<(Json, nat)>)
    requires stack != []
    ensures var (v, depth) := stack[|stack|-1];
            Passes(nodes, stack, NO_SHAPE, 0) <==> Passes(nodes, stack[..|stack|-1], ShapeOf(v), depth)
    ensures StackNodes(stack) == StackNodes(stack[..|stack|-1]) + ShapeOf(stack[|stack|-1].0).nodes
  {
    var rest := stack[..|stack|-1];
    var (v, depth) := stack[|stack|-1];
    assert stack == rest + [(v, depth)];
    PushPasses(nodes, rest, v, NO_SHAPE, depth);
    assert StackWithin(stack) <==> StackWithin(rest) && Within(ShapeOf(v), depth) by {
      assert forall i :: 0 <= i < |rest| ==> stack[i] == rest[i];
    }
  }

  /** Visiting a value: count it, check its depth, then check its text or expect its contents. */
  lemma VisitPasses(nodes: nat, stack: seq<(Json, nat)>, v: Json, depth: nat)
    ensures Passes(nodes, stack, ShapeOf(v), depth) ==> nodes + 1 <= MAX_JSON_NODES && depth <= MAX_JSON_DEPTH
    ensures depth <= MAX_JSON_DEPTH ==>
              && Passes(nodes + 1, stack, NO_SHAPE, depth + 1) == Passes(nodes + 1, stack, NO_SHAPE, 0)
              && Passes(nodes, stack, ShapeOf(v), depth)
                 == match v
                    case Obj(members) => Passes(nodes + 1, stack, ShapeOfMembers(members), depth + 1)
                    case Arr(items) => Passes(nodes + 1, stack, ShapeOfItems(items), depth + 1)
                    case Str(s) => TextOk(s) && Passes(nodes + 1, stack, NO_SHAPE, 0)
                    case _ => Passes(nodes + 1, stack, NO_SHAPE, 0)
  {
    hide StackWithin, StackNodes;
  }

  /** Pushing a dict's values, each after the check of its key. */
  method PushMembers(ghost nodes: nat, stack: seq<(Json, nat)>, members: seq<Member>, depth: nat)
    returns (ok: bool, pushed: seq<(Json, nat)>)
    requires depth <= MAX_JSON_DEPTH + 1
    ensures Passes(nodes, stack, ShapeOfMembers(members), depth) <==> ok && Passes(nodes, pushed, NO_SHAPE, depth)
    ensures ok ==> StackNodes(pushed) == StackNodes(stack) + ShapeOfMembers(members).nodes
  {
    hide Passes, StackNodes, StackWithin, Within, ShapeOf;
    pushed := stack;
    assert members[0..] == members;
    for i := 0 to |members|
      invariant Passes(nodes, stack, ShapeOfMembers(members), depth)
           <==> Passes(nodes, pushed, ShapeOfMembers(members[i..]), depth)
      invariant StackNodes(pushed) + ShapeOfMembers(members[i..]).nodes
             == StackNodes(stack) + ShapeOfMembers(members).nodes
    {
      assert members[i..][0] == members[i] && members[i..][1..] == members[i+1..];
      PushMemberPasses(nodes, pushed, members[i], ShapeOfMembers(members[i+1..]), depth);
      if !TextOk(members[i].key) {
        return false, pushed;
      }
      pushed := pushed + [(members[i].value, depth)];
    }
    assert members[|members|..] == [];
    return true, pushed;
  }

  method PushItems(ghost nodes: nat, stack: seq<(Json, nat)>, items: seq<Json>, depth: nat)
    returns (pushed: seq<(Json, nat)>)
    ensures Passes(nodes, stack, ShapeOfItems(items), depth) <==> Passes(nodes, pushed, NO_SHAPE, depth)
    ensures StackNodes(pushed) == StackNodes(stack) + ShapeOfItems(items).nodes
  {
    hide Passes, StackNodes, StackWithin, Within, ShapeOf;
    pushed := stack;
    assert items[0..] == items;
    for i := 0 to |items|
      invariant Passes(nodes, stack, ShapeOfItems(items), depth)
           <==> Passes(nodes, pushed, ShapeOfItems(items[i..]), depth)
      invariant StackNodes(pushed) + ShapeOfItems(items[i..]).nodes == StackNodes(stack) + ShapeOfItems(items).nodes
    {
      assert items[i..][0] == items[i] && items[i..][1..] == items[i+1..];
      PushPasses(nodes, pushed, items[i], ShapeOfItems(items[i+1..]), depth);
      pushed := pushed + [(items[i], depth)];
    }
    assert items[|items|..] == [];
  }

  /** The stack walk decides exactly the recursive measurement. */
  method ValidateResources(value: Json) returns (ok: bool)
    ensures ok <==> ResourcesOk(ShapeOf(value))
  {
    var stack: seq<(Json, nat)> := [(value, 0)];
    var nodes: nat := 0;
    StartPasses(value);
    while stack != []
      invariant ResourcesOk(ShapeOf(value)) <==> Passes(nodes, stack, NO_SHAPE, 0)
      invariant stack == [] ==> Passes(nodes, stack, NO_SHAPE, 0)
      decreases StackNodes(stack)
    {
      hide Passes, StackNodes, StackWithin, Within;
      PopPasses(nodes, stack);
      var (current, depth) := stack[|stack|-1];
      stack := stack[..|stack|-1];
      VisitPasses(nodes, stack, current, depth);
      nodes := nodes + 1;
      if nodes > MAX_JSON_NODES || depth > MAX_JSON_DEPTH {
        return false;
      }
      EmptyPasses(nodes);
      match current {
        case Obj(members) =>
          var ok;
          ok, stack := PushMembers(nodes, stack, members, depth + 1);
          if !ok {
            return false;
          }
          VisitPasses(nodes - 1, stack, current, depth);
        case Arr(items) =>
          stack := PushItems(nodes, stack, items, depth + 1);
          VisitPasses(nodes - 1, stack, current, depth);
        case Str(s) =>
          if !TextOk(s) {
            return false;
          }
        case _ =>
      }
    }
    return true;
  }

  lemma EmptyPasses(nodes: nat)
    requires nodes <= MAX_JSON_NODES
    ensures Passes(nodes, [], NO_SHAPE, 0)
  {
  }

  lemma StartPasses(value: Json)
    ensures ResourcesOk(ShapeOf(value)) <==> Passes(0, [(value, 0)], NO_SHAPE, 0)
  {
    PushPasses(0, [], value, NO_SHAPE, 0);
    assert [] + [(value, 0 as nat)] == [(value, 0)];
  }

  // ----- What the limits mean

  /** The value at the end of a path of positions. */
  function At(v: Json, path: seq<nat>): Option<Json>
    decreases path
  {
    if path == [] then Some(v)
    else
      match v
      case Arr(items) => if path[0] < |items| then At(items[path[0]], path[1..]) else None
      case Obj(members) => if path[0] < |members| then At(members[path[0]].value, path[1..]) else None
      case _ => None
  }

  /** The strings a value holds itself: its text, or its keys. */
  ghost predicate OwnTextsOk(v: Json) {
    match v
    case Str(s) => ShortAndStrict(s)
    case Obj(members) => forall i :: 0 <= i < |members| ==> ShortAndStrict(members[i].key)
    case _ => true
  }

  ghost predicate ShortAndStrict(s: Text) {
    (forall i :: 0 <= i < |s| ==> !(0xD800 <= s[i] < 0xE000)) && |Encode(s)| <= 1024 * 1024
  }

  ghost predicate FitsAt(v: Json, depth: nat, path: seq<nat>) {
    At(v, path).Some? ==> depth + |path| <= MAX_JSON_DEPTH && OwnTextsOk(At(v, path).value)
  }

  lemma {:induction false} WithinItems(items: seq<Json>, depth: nat)
    requires depth <= MAX_JSON_DEPTH + 1
    ensures Within(ShapeOfItems(items), depth) <==> forall i :: 0 <= i < |items| ==> Within(ShapeOf(items[i]), depth)
  {
    if items != [] {
      WithinItems(items[1..], depth);
      assert forall i :: 0 <= i < |items| ==> items[i] == if i == 0 then items[0] else items[1..][i-1];
      hide ShapeOf;
    }
  }

  lemma {:induction false} WithinMembers(members: seq<Member>, depth: nat)
    requires depth <= MAX_JSON_DEPTH + 1
    ensures Within(ShapeOfMembers(members), depth)
       <==> forall i :: 0 <= i < |members| ==>
              ShortAndStrict(members[i].key) && Within(ShapeOf(members[i].value), depth)
  {
    if members != [] {
      WithinMembers(members[1..], depth);
      assert forall i :: 0 <= i < |members| ==> members[i] == if i == 0 then members[0] else members[1..][i-1];
      hide ShapeOf, Encode;
    }
  }

  lemma {:induction false} WithinMeans(v: Json, depth: nat)
    ensures Within(ShapeOf(v), depth) <==> forall path :: FitsAt(v, depth, path)
    decreases v
  {
    if depth > MAX_JSON_DEPTH {
      assert !FitsAt(v, depth, []);
    } else if Within(ShapeOf(v), depth) {
      forall path ensures FitsAt(v, depth, path) {
        if path != [] && At(v, path).Some? {
          ChildFits(v, depth, path);
        } else {
          OwnFits(v, depth);
        }
      }
    } else if forall path :: FitsAt(v, depth, path) {
      assert FitsAt(v, depth, []);
      ChildrenWithin(v, depth);
    }
  }

  /** The children of a value, in order. */
  function Children(v: Json): seq<Json> {
    match v
    case Arr(items) => items
    case Obj(members) => seq(|members|, i requires 0 <= i < |members| => members[i].value)
    case _ => []
  }

  lemma ChildAt(v: Json, path: seq<nat>)
    requires path != []
    ensures At(v, path)
         == if path[0] < |Children(v)| then At(Children(v)[path[0]], path[1..]) else None
    ensures forall i :: 0 <= i < |Children(v)| ==> Children(v)[i] < v
  {
  }

  lemma OwnFits(v: Json, depth: nat)
    requires depth <= MAX_JSON_DEPTH
    ensures Within(ShapeOf(v), depth) <==>
              OwnTextsOk(v) && forall i :: 0 <= i < |Children(v)| ==> Within(ShapeOf(Children(v)[i]), depth + 1)
  {
    var shape := ShapeOf(v);
    match v
    case Arr(items) =>
      WithinItems(items, depth + 1);
      assert shape == Enclose(ShapeOfItems(items)) && Children(v) == items;
      assert Within(shape, depth) <==> Within(ShapeOfItems(items), depth + 1);
      hide Within, ShapeOf, ShapeOfItems;
    case Obj(members) =>
      WithinMembers(members, depth + 1);
      var children := Children(v);
      assert |children| == |members| && forall i :: 0 <= i < |members| ==> children[i] == members[i].value;
      assert Within(shape, depth) <==> Within(ShapeOfMembers(members), depth + 1);
      hide Within, ShapeOf, ShapeOfMembers, ShortAndStrict, Children;
      if OwnTextsOk(v) && forall i :: 0 <= i < |children| ==> Within(ShapeOf(children[i]), depth + 1) {
        assert forall i :: 0 <= i < |members| ==> Within(ShapeOf(children[i]), depth + 1);
      }
    case _ =>
  }

  lemma {:induction false} ChildFits(v: Json, depth: nat, path: seq<nat>)
    requires depth <= MAX_JSON_DEPTH && Within(ShapeOf(v), depth) && path != [] && At(v, path).Some?
    ensures FitsAt(v, depth, path)
    decreases v, 0
  {
    OwnFits(v, depth);
    ChildAt(v, path);
    var child := Children(v)[path[0]];
    WithinMeans(child, depth + 1);
    assert FitsAt(child, depth + 1, path[1..]);
  }

  lemma {:induction false} ChildrenWithin(v: Json, depth: nat)
    requires depth <= MAX_JSON_DEPTH && forall path :: FitsAt(v, depth, path)
    ensures Within(ShapeOf(v), depth)
    decreases v, 0
  {
    forall i | 0 <= i < |Children(v)| ensures Within(ShapeOf(Children(v)[i]), depth + 1) {
      ChildAt(v, [i]);
      var child, below := Children(v)[i], depth + 1;
      forall path ensures FitsAt(child, below, path) {
        ChildAt(v, [i] + path);
        assert ([i] + path)[1..] == path;
        assert FitsAt(v, depth, [i] + path);
      }
      WithinMeans(Children(v)[i], depth + 1);
    }
    assert FitsAt(v, depth, []);
    OwnFits(v, depth);
  }

  /** The resource check passes exactly when the value has at most so many nodes, none of them lies at the
      end of a path longer than the limit, and every string and key there is short enough and strict. */
  lemma ResourcesMean(v: Json)
    ensures ResourcesOk(ShapeOf(v))
       <==> ShapeOf(v).nodes <= MAX_JSON_NODES && forall path :: FitsAt(v, 0, path)
  {
    WithinMeans(v, 0);
  }

  // ----- canonical_json

  /** Strict UTF-8 of a text that must fit in `maxBytes`. */
  function BoundedUtf8(text: Text, maxBytes: nat): Result<Bytes> {
    if Encodable(text) && |Encode(text)| <= maxBytes then Ok(Encode(text)) else Raised
  }

  function CanonicalBytes(v: Json, maxBytes: nat): Result<Bytes> {
    BoundedUtf8(CanonicalText(v), maxBytes)
  }

  function Joined(fragments: seq<Text>): Text {
    if fragments == [] then [] else fragments[0] + Joined(fragments[1..])
  }

  /** The encoding loop of `canonical_json`, whatever fragments the encoder cuts the text into: the
      running total raises exactly when the finished document, newline included, would be too long. */
  method EncodeFragments(fragments: seq<Text>, maxBytes: nat) returns (r: Result<Bytes>)
    requires Joined(fragments) != []
    ensures r == BoundedUtf8(Joined(fragments) + [NEWLINE], maxBytes)
  {
    hide Encode, Encodable;
    ghost var done: Text, whole := [], Joined(fragments);
    assert Encode([]) == [] && Encodable([]) by { EmptyUtf8(); }
    var chunks: Bytes, total: nat := [], 0;
    NewlineUtf8(whole);
    assert fragments[0..] == fragments;
    for i := 0 to |fragments|
      invariant whole == done + Joined(fragments[i..])
      invariant chunks == Encode(done) && total == |chunks| && Encodable(done)
      invariant i > 0 ==> total + 1 <= maxBytes
    {
      var fragment := fragments[i];
      ghost var rest := Joined(fragments[i+1..]);
      assert fragments[i..][0] == fragment && fragments[i..][1..] == fragments[i+1..];
      assert whole == (done + fragment) + rest;
      FragmentUtf8(done, fragment, rest);
      if !Encodable(fragment) {
        return Raised;
      }
      total := total + |Encode(fragment)|;
      if total + 1 > maxBytes {
        return Raised;
      }
      chunks := chunks + Encode(fragment);
      done := done + fragment;
    }
    assert fragments[|fragments|..] == [] && whole == done;
    return Ok(chunks + [NEWLINE]);
  }

  lemma EmptyUtf8()
    ensures Encode([]) == [] && Encodable([])
  {
  }

  lemma NewlineUtf8(text: Text)
    ensures Encode(text + [NEWLINE]) == Encode(text) + [NEWLINE]
    ensures Encodable(text + [NEWLINE]) <==> Encodable(text)
  {
    EncodeConcat(text, [NEWLINE]);
    EncodableConcat(text, [NEWLINE]);
    assert Encode([NEWLINE]) == [NEWLINE] + Encode([]);
  }

  lemma FragmentUtf8(done: Text, fragment: Text, rest: Text)
    ensures Encode(done + fragment) == Encode(done) + Encode(fragment)
    ensures |Encode(done + fragment + rest)| >= |Encode(done)| + |Encode(fragment)|
    ensures Encodable(done + fragment + rest) ==> Encodable(fragment)
    ensures Encodable(done + fragment) <==> Encodable(done) && Encodable(fragment)
  {
    EncodeConcat(done, fragment);
    EncodeConcat(done + fragment, rest);
    EncodableConcat(done, fragment);
    EncodableConcat(done + fragment, rest);
  }

  lemma EncodableConcat(a: Text, b: Text)
    ensures Encodable(a + b) <==> Encodable(a) && Encodable(b)
  {
    if Encodable(a + b) {
      assert forall i :: 0 <= i < |a| ==> a[i] == (a + b)[i];
      assert forall i :: 0 <= i < |b| ==> b[i] == (a + b)[|a| + i];
    }
  }

  lemma {:induction false} QuotedEncodable(s: Text)
    ensures Encodable(Escape(s)) <==> Encodable(s)
    ensures Encodable(Quoted(s)) <==> Encodable(s)
  {
    if s != [] {
      PointEncodable(s[0]);
      hide EscapePoint, Encodable;
      QuotedEncodable(s[1..]);
      EncodableConcat(EscapePoint(s[0]), Escape(s[1..]));
      EncodableConcat([s[0]], s[1..]);
      assert s == [s[0]] + s[1..];
    }
    EncodableConcat([QUOTE], Escape(s));
    EncodableConcat([QUOTE] + Escape(s), [QUOTE]);
  }

  lemma PointEncodable(c: CodePoint)
    ensures Encodable(EscapePoint(c)) <==> !Surrogate(c)
    ensures Encodable([c]) <==> !Surrogate(c)
  {
    assert Surrogate(c) ==> EscapePoint(c)[0] == c;
    assert [c][0] == c;
  }

  lemma {:induction false} RenderEncodable(v: Json)
    ensures Encodable(Render(v)) <==> ShapeOf(v).encodable
    decreases v, 0
  {
    match v
    case Num(n) =>
      DigitsOf(Magnitude(n));
      EncodableConcat(if n < 0 then [MINUS] else [], Digits(Magnitude(n)));
    case Str(s) => QuotedEncodable(s);
    case Arr(items) =>
      if items != [] {
        ItemsEncodable(items);
        EncodableConcat([LBRACKET], RenderItems(items));
      }
    case Obj(members) =>
      if members != [] {
        MembersEncodable(members);
        EncodableConcat([LBRACE], RenderMembers(members));
      }
    case _ =>
  }

  lemma {:induction false} ItemsEncodable(items: seq<Json>)
    requires items != []
    ensures Encodable(RenderItems(items)) <==> ShapeOfItems(items).encodable
    decreases items, 0
  {
    RenderEncodable(items[0]);
    var tail := if |items| == 1 then [RBRACKET] else [COMMA] + RenderItems(items[1..]);
    EncodableConcat(Render(items[0]), tail);
    if |items| > 1 {
      ItemsEncodable(items[1..]);
      EncodableConcat([COMMA], RenderItems(items[1..]));
    }
  }

  lemma {:induction false} MembersEncodable(members: seq<Member>)
    requires members != []
    ensures Encodable(RenderMembers(members)) <==> ShapeOfMembers(members).encodable
    decreases members, 0
  {
    var m := members[0];
    QuotedEncodable(m.key);
    RenderEncodable(m.value);
    var tail := if |members| == 1 then [RBRACE] else [COMMA] + RenderMembers(members[1..]);
    EncodableConcat(Quoted(m.key), [COLON]);
    EncodableConcat(Quoted(m.key) + [COLON], Render(m.value));
    EncodableConcat(Quoted(m.key) + [COLON] + Render(m.value), tail);
    if |members| > 1 {
      MembersEncodable(members[1..]);
      EncodableConcat([COMMA], RenderMembers(members[1..]));
    }
  }

  lemma CanonicalEncodable(v: Json)
    ensures Encodable(CanonicalText(v)) <==> ShapeOf(v).encodable
  {
    SortKeysShape(v);
    RenderEncodable(SortKeys(v));
    EncodableConcat(Render(SortKeys(v)), [NEWLINE]);
  }

  // ----- parse_canonical_json

  ghost function ParseCanonicalJson(content: Bytes): Result<Json> {
    if |content| > MAX_ATTESTATION_BYTES || !WithinScanLimits(Track(START, content)) then Raised
    else
      match Decode(content)
      case None => Raised
      case Some(text) =>
        match Loads(text, MAX_JSON_INTEGER_DIGITS)
        case None => Raised
        case Some(v) =>
          if ResourcesOk(ShapeOf(v)) && CanonicalBytes(v, MAX_ATTESTATION_BYTES) == Ok(content) then Ok(v)
          else Raised
  }

  /** `parse_canonical_json`, from the scan to the comparison with the canonical bytes. */
  method ParseDocument(content: Bytes) returns (r: Result<Json>)
    ensures r == ParseCanonicalJson(content)
  {
    hide Track, Decode, Loads, ShapeOf, Render, SortKeys, Encodable, Encode;
    if |content| > MAX_ATTESTATION_BYTES {
      return Raised;
    }
    var refused := RejectExcessiveNesting(content);
    if refused.Some? {
      return Raised;
    }
    var decoded := Decode(content);
    if decoded.None? {
      return Raised;
    }
    var loaded := Loads(decoded.value, MAX_JSON_INTEGER_DIGITS);
    if loaded.None? {
      return Raised;
    }
    var ok := ValidateResources(loaded.value);
    if !ok {
      return Raised;
    }
    var fragments := [Render(SortKeys(loaded.value))];
    JoinedOne(fragments[0]);
    var printed := EncodeFragments(fragments, MAX_ATTESTATION_BYTES);
    return if printed == Ok(content) then Ok(loaded.value) else Raised;
  }

  lemma JoinedOne(fragment: Text)
    ensures Joined([fragment]) == fragment
  {
  }

  /** The values an attestation can hold. */
  ghost predicate Storable(v: Json) {
    var shape := ShapeOf(v);
    && ResourcesOk(shape) && shape.nesting <= MAX_JSON_DEPTH
    && WellParsed(shape, MAX_JSON_INTEGER_DIGITS)
    && |Encode(CanonicalText(v))| <= MAX_ATTESTATION_BYTES
  }

  /** The canonical text determines the value up to the order of keys, and nothing less. */
  lemma CanonicalDecides(a: Json, b: Json)
    requires ShapeOf(a).distinct && ShapeOf(b).distinct
    ensures CanonicalText(a) == CanonicalText(b) <==> SortKeys(a) == SortKeys(b)
  {
    var enough := Max(ShapeOf(a).digits, ShapeOf(b).digits);
    LoadsCanonical(a, enough);
    LoadsCanonical(b, enough);
  }

  /** Printing any storable value and parsing the bytes gives the value back, keys in order. */
  lemma PrintThenParse(v: Json)
    requires Storable(v)
    ensures CanonicalBytes(v, MAX_ATTESTATION_BYTES).Ok?
    ensures ParseCanonicalJson(CanonicalBytes(v, MAX_ATTESTATION_BYTES).value) == Ok(SortKeys(v))
  {
    hide Decode, Encode, Encodable, Loads, Track, ShapeOf, Render, SortKeys, ParseCanonicalJson;
    var text := CanonicalText(v);
    CanonicalEncodable(v);
    DecodeEncode(text);
    LoadsCanonical(v, MAX_JSON_INTEGER_DIGITS);
    ScanCountsTree(text, MAX_JSON_INTEGER_DIGITS);
    SortKeysShape(v);
    SortTwice(v);
    ParseUnfolds(Encode(text), SortKeys(v));
  }

  /** The parser's checks in one place. */
  lemma ParseUnfolds(content: Bytes, v: Json)
    ensures ParseCanonicalJson(content) == Ok(v)
       <==> && |content| <= MAX_ATTESTATION_BYTES && WithinScanLimits(Track(START, content))
            && Decode(content).Some? && Loads(Decode(content).value, MAX_JSON_INTEGER_DIGITS) == Some(v)
            && ResourcesOk(ShapeOf(v)) && CanonicalBytes(v, MAX_ATTESTATION_BYTES) == Ok(content)
  {
    hide Decode, Encode, Encodable, Loads, Track, ShapeOf, Render, SortKeys;
  }

  /** The parser accepts exactly the canonical bytes of storable values with keys in order, and
      returns the value they are the bytes of. */
  lemma ParseAcceptsExactly(content: Bytes, v: Json)
    ensures ParseCanonicalJson(content) == Ok(v)
       <==> Storable(v) && SortKeys(v) == v && CanonicalBytes(v, MAX_ATTESTATION_BYTES) == Ok(content)
  {
    ParseUnfolds(content, v);
    if ParseCanonicalJson(content) == Ok(v) {
      hide Decode, Encode, Encodable, Track, ShapeOf, Render, SortKeys, ParseValue, ParseCanonicalJson;
      var text := Decode(content).value;
      EncodeDecode(content);
      ScanCountsTree(text, MAX_JSON_INTEGER_DIGITS);
      ParseValueWellFormed(SkipSpace(text), MAX_JSON_INTEGER_DIGITS);
      EncodeInjective(text, CanonicalText(v));
      LoadsCanonical(v, MAX_JSON_INTEGER_DIGITS);
    }
    if Storable(v) && SortKeys(v) == v && CanonicalBytes(v, MAX_ATTESTATION_BYTES) == Ok(content) {
      PrintThenParse(v);
    }
  }

  /** {"a":1,"b":2} and a newline, from a dict filled in the other order. */
  lemma CanonicalExample()
    ensures CanonicalText(Obj([Member([0x62], Num(2)), Member([0x61], Num(1))]))
         == [0x7B, 0x22, 0x61, 0x22, 0x3A, 0x31, 0x2C, 0x22, 0x62, 0x22, 0x3A, 0x32, 0x7D, 0x0A]
  {
    var b, a := Member([0x62], Num(2)), Member([0x61], Num(1));
    var first: Text := [0x22, 0x61, 0x22, 0x3A, 0x31];
    var second: Text := [0x22, 0x62, 0x22, 0x3A, 0x32];
    hide Render, SortKeys, Quoted, KeyLeq, LexLeq;
    assert KeyLeq(a, b) && !KeyLeq(b, a) by { LexPair(0x61, 0x62); }
    TwoSorted(b, a);
    MemberText(a, 0x31);
    MemberText(b, 0x32);
    assert first == Quoted(a.key) + [COLON] + Render(a.value);
    assert second == Quoted(b.key) + [COLON] + Render(b.value);
    PairText(a, b, first, second);
    PairBytes(first, second);
  }

  lemma LexPair(x: CodePoint, y: CodePoint)
    requires x < y
    ensures KeyLeq(Member([x], Num(1)), Member([y], Num(2))) && !KeyLeq(Member([y], Num(2)), Member([x], Num(1)))
  {
  }

  lemma PairBytes(first: Text, second: Text)
    requires first == [0x22, 0x61, 0x22, 0x3A, 0x31] && second == [0x22, 0x62, 0x22, 0x3A, 0x32]
    ensures [LBRACE] + (first + ([COMMA] + (second + [RBRACE]))) + [NEWLINE]
         == [0x7B, 0x22, 0x61, 0x22, 0x3A, 0x31, 0x2C, 0x22, 0x62, 0x22, 0x3A, 0x32, 0x7D, 0x0A]
  {
  }

  lemma PairText(a: Member, b: Member, first: Text, second: Text)
    requires first == Quoted(a.key) + [COLON] + Render(a.value)
    requires second == Quoted(b.key) + [COLON] + Render(b.value)
    ensures Render(Obj([a, b])) == [LBRACE] + (first + ([COMMA] + (second + [RBRACE])))
  {
    hide Quoted;
    assert [a, b][1..] == [b];
    assert RenderMembers([b]) == second + [RBRACE];
    assert RenderMembers([a, b]) == first + ([COMMA] + RenderMembers([b]));
  }

  lemma TwoSorted(b: Member, a: Member)
    requires b.value.Num? && a.value.Num? && KeyLeq(a, b) && !KeyLeq(b, a)
    ensures SortKeys(Obj([b, a])) == Obj([a, b])
  {
    assert [b, a][1..] == [a] && [a][1..] == [];
    assert SortValues([b, a]) == [b] + SortValues([a]) == [b, a];
    SortedPair(KeyLeq, b, a);
  }

  lemma MemberText(m: Member, digit: CodePoint)
    requires |m.key| == 1 && 0x61 <= m.key[0] <= 0x7A && m.value.Num? && 0 <= m.value.n < 10
    requires digit == 0x30 + m.value.n
    ensures Quoted(m.key) == [QUOTE] + m.key + [QUOTE] && Render(m.value) == [digit]
  {
    assert Escape(m.key) == EscapePoint(m.key[0]) + Escape([]) == m.key;
  }

  // ----- exact_json_equal

  datatype Verdict = Raises | Same(same: bool)

  function Lookup(members: seq<Member>, key: Text): Option<Json> {
    if members == [] then None
    else if members[0].key == key then Some(members[0].value)
    else Lookup(members[1..], key)
  }

  function ExactEqual(left: Json, right: Json, depth: nat): Verdict
    decreases left, 0
  {
    if depth > MAX_JSON_DEPTH then Raises
    else
      match (left, right)
      case (Obj(a), Obj(b)) => if |a| != |b| then Same(false) else EqualMembers(a, b, depth + 1)
      case (Arr(a), Arr(b)) => if |a| != |b| then Same(false) else EqualItems(a, b, depth + 1)
      case _ => Same(left == right)
  }

  /** The loop over the left dict: every key must be on the right with an equal value. */
  function EqualMembers(a: seq<Member>, b: seq<Member>, depth: nat): Verdict
    decreases a, 0
  {
    if a == [] then Same(true)
    else
      match Lookup(b, a[0].key)
      case None => Same(false)
      case Some(other) =>
        var verdict := ExactEqual(a[0].value, other, depth);
        if verdict == Same(true) then EqualMembers(a[1..], b, depth) else verdict
  }

  function EqualItems(a: seq<Json>, b: seq<Json>, depth: nat): Verdict
    requires |a| == |b|
    decreases a, 0
  {
    if a == [] then Same(true)
    else
      var verdict := ExactEqual(a[0], b[0], depth);
      if verdict == Same(true) then EqualItems(a[1..], b[1..], depth) else verdict
  }

  lemma {:induction false} LookupSorted(b: seq<Member>, key: Text)
    requires UniqueKeys(b)
    ensures Lookup(b, key).None? ==> forall i :: 0 <= i < |b| ==> b[i].key != key
    ensures Lookup(b, key).Some? ==> exists i :: 0 <= i < |b| && b[i] == Member(key, Lookup(b, key).value)
  {
    if b != [] && b[0].key != key {
      LookupSorted(b[1..], key);
      if Lookup(b, key).Some? {
        var i :| 0 <= i < |b[1..]| && b[1..][i] == Member(key, Lookup(b, key).value);
        assert b[i+1] == Member(key, Lookup(b, key).value);
      } else {
        assert forall i :: 0 < i < |b| ==> b[i] == b[1..][i-1];
      }
    }
  }

  /** A key-sorted member of the left is on the right exactly when the lookup finds its equal. */
  lemma LookupDecides(m: Member, b: seq<Member>)
    requires UniqueKeys(b)
    ensures Member(m.key, SortKeys(m.value)) in SortValues(b)
       <==> Lookup(b, m.key).Some? && SortKeys(Lookup(b, m.key).value) == SortKeys(m.value)
  {
    LookupSorted(b, m.key);
    var wanted := Member(m.key, SortKeys(m.value));
    if wanted in SortValues(b) {
      var i :| 0 <= i < |b| && SortValues(b)[i] == wanted;
      SortValuesAt(b, i);
      assert b[i].key == m.key;
    }
    if Lookup(b, m.key).Some? {
      var i :| 0 <= i < |b| && b[i] == Member(m.key, Lookup(b, m.key).value);
      SortValuesAt(b, i);
      assert SortValues(b)[i] in SortValues(b);
    }
  }

  ghost predicate DepthFits(a: Shape, b: Shape, depth: nat) {
    depth + a.height <= MAX_JSON_DEPTH || depth + b.height <= MAX_JSON_DEPTH
  }

  lemma {:induction false} LookupShape(b: seq<Member>, key: Text)
    requires Lookup(b, key).Some?
    ensures ShapeOf(Lookup(b, key).value).height <= ShapeOfMembers(b).height
    ensures ShapeOfMembers(b).distinct ==> ShapeOf(Lookup(b, key).value).distinct
  {
    if b[0].key != key {
      LookupShape(b[1..], key);
    }
  }

  /** Exact equality is equality up to key order, unless both values are nested too deep. */
  lemma {:induction false} ExactEqualDecides(a: Json, b: Json, depth: nat)
    requires ShapeOf(a).distinct && ShapeOf(b).distinct && DepthFits(ShapeOf(a), ShapeOf(b), depth)
    ensures ExactEqual(a, b, depth) == Same(SortKeys(a) == SortKeys(b))
    decreases a, 0
  {
    hide Sort, ShapeOfMembers, ShapeOfItems, SortValues, SortItems, EqualMembers, EqualItems;
    match (a, b)
    case (Obj(x), Obj(y)) =>
      if |x| == |y| {
        EqualMembersDecides(x, y, depth + 1);
        SameMembersSort(x, y);
      } else {
        assert |Sort(KeyLeq, SortValues(x))| != |Sort(KeyLeq, SortValues(y))|;
      }
    case (Arr(x), Arr(y)) =>
      if |x| == |y| {
        EqualItemsDecides(x, y, depth + 1);
      } else {
        assert |SortItems(x)| != |SortItems(y)|;
      }
    case _ =>
      DifferentConstructors(a, b);
  }

  lemma DifferentConstructors(a: Json, b: Json)
    requires !(a.Obj? && b.Obj?) && !(a.Arr? && b.Arr?)
    ensures SortKeys(a) == SortKeys(b) <==> a == b
  {
  }

  lemma SameMembersSort(x: seq<Member>, y: seq<Member>)
    requires UniqueKeys(x) && UniqueKeys(y) && |x| == |y|
    ensures (forall m :: m in SortValues(x) ==> m in SortValues(y))
       <==> Sort(KeyLeq, SortValues(x)) == Sort(KeyLeq, SortValues(y))
  {
    var a, b := SortValues(x), SortValues(y);
    KeyOrder();
    assert NoDuplicates(a);
    assert AntisymmetricOn(KeyLeq, a);
    SortCanonical(KeyLeq, a, b);
    if forall m :: m in a ==> m in b {
      SubsetOfSameLength(a, b);
    }
    if multiset(a) == multiset(b) {
      SameMembers(a, b);
    }
  }

  lemma {:induction false} EqualMembersDecides(a: seq<Member>, b: seq<Member>, depth: nat)
    requires ShapeOfMembers(a).distinct && ShapeOfMembers(b).distinct && UniqueKeys(b)
    requires DepthFits(ShapeOfMembers(a), ShapeOfMembers(b), depth)
    ensures EqualMembers(a, b, depth) == Same(forall m :: m in SortValues(a) ==> m in SortValues(b))
    decreases a, 0
  {
    hide ExactEqual, SortKeys, ShapeOf, Lookup;
    if a != [] {
      var head := Member(a[0].key, SortKeys(a[0].value));
      assert SortValues(a) == [head] + SortValues(a[1..]);
      hide SortValues;
      AllMembers(head, SortValues(a[1..]), SortValues(b));
      LookupDecides(a[0], b);
      EqualMembersDecides(a[1..], b, depth);
      if Lookup(b, a[0].key).Some? {
        LookupShape(b, a[0].key);
        ExactEqualDecides(a[0].value, Lookup(b, a[0].key).value, depth);
      }
    }
  }

  lemma AllMembers(head: Member, tail: seq<Member>, s: seq<Member>)
    ensures (forall m :: m in [head] + tail ==> m in s) <==> head in s && forall m :: m in tail ==> m in s
  {
    assert forall m :: m in [head] + tail <==> m == head || m in tail;
  }

  lemma {:induction false} EqualItemsDecides(a: seq<Json>, b: seq<Json>, depth: nat)
    requires |a| == |b| && ShapeOfItems(a).distinct && ShapeOfItems(b).distinct
    requires DepthFits(ShapeOfItems(a), ShapeOfItems(b), depth)
    ensures EqualItems(a, b, depth) == Same(SortItems(a) == SortItems(b))
    decreases a, 0
  {
    if a != [] {
      ExactEqualDecides(a[0], b[0], depth);
      EqualItemsDecides(a[1..], b[1..], depth);
      var x, y := SortItems(a), SortItems(b);
      assert x[0] == SortKeys(a[0]) && x[1..] == SortItems(a[1..]);
      assert y[0] == SortKeys(b[0]) && y[1..] == SortItems(b[1..]);
      assert x == [x[0]] + x[1..] && y == [y[0]] + y[1..];
    }
  }

  /** Equal values nested too deep raise: equality is decided only within the limit. */
  lemma {:induction false} ExactEqualTooDeep(a: Json, b: Json, depth: nat)
    requires ShapeOf(a).distinct && ShapeOf(b).distinct && SortKeys(a) == SortKeys(b)
    requires depth + ShapeOf(a).height > MAX_JSON_DEPTH
    ensures ExactEqual(a, b, depth) == Raises
    decreases a, 2
  {
    if depth <= MAX_JSON_DEPTH {
      ContentsShape(a);
      hide SortKeys, ShapeOf;
      if a.Arr? {
        ArrayTooDeep(a, b, depth);
      } else {
        ObjectTooDeep(a, b, depth);
      }
    }
  }

  lemma {:induction false} ArrayTooDeep(a: Json, b: Json, depth: nat)
    requires a.Arr? && depth <= MAX_JSON_DEPTH
    requires ShapeOf(a).distinct && ShapeOf(b).distinct && SortKeys(a) == SortKeys(b)
    requires depth + ShapeOf(a).height > MAX_JSON_DEPTH
    ensures ExactEqual(a, b, depth) == Raises
    decreases a, 1
  {
    SortedAlike(a, b);
    ContentsShape(a);
    ContentsShape(b);
    ExactUnfolds(a, b, depth);
    hide ExactEqual, SortKeys, SortItems, ShapeOf, ShapeOfItems, EqualItems;
    ItemsTooDeep(a.items, b.items, depth + 1);
  }

  lemma {:induction false} ObjectTooDeep(a: Json, b: Json, depth: nat)
    requires a.Obj? && depth <= MAX_JSON_DEPTH
    requires ShapeOf(a).distinct && ShapeOf(b).distinct && SortKeys(a) == SortKeys(b)
    requires depth + ShapeOf(a).height > MAX_JSON_DEPTH
    ensures ExactEqual(a, b, depth) == Raises
    decreases a, 1
  {
    SortedAlike(a, b);
    ContentsShape(a);
    ContentsShape(b);
    ExactUnfolds(a, b, depth);
    hide ExactEqual, SortKeys, SortValues, ShapeOf, ShapeOfMembers, UniqueKeys, EqualMembers;
    MembersTooDeep(a.members, b.members, depth + 1);
  }

  lemma ExactUnfolds(a: Json, b: Json, depth: nat)
    requires depth <= MAX_JSON_DEPTH
    ensures a.Arr? && b.Arr? && |a.items| == |b.items| ==>
              ExactEqual(a, b, depth) == EqualItems(a.items, b.items, depth + 1)
    ensures a.Obj? && b.Obj? && |a.members| == |b.members| ==>
              ExactEqual(a, b, depth) == EqualMembers(a.members, b.members, depth + 1)
  {
    hide EqualItems, EqualMembers;
  }

  lemma ContentsShape(v: Json)
    ensures v.Arr? ==> ShapeOf(v).height == ShapeOfItems(v.items).height + 1
                       && ShapeOf(v).distinct == ShapeOfItems(v.items).distinct
    ensures v.Obj? ==> ShapeOf(v).height == ShapeOfMembers(v.members).height + 1
                       && (ShapeOf(v).distinct ==> ShapeOfMembers(v.members).distinct && UniqueKeys(v.members))
    ensures !v.Arr? && !v.Obj? ==> ShapeOf(v).height == 0
  {
  }

  lemma SortedAlike(a: Json, b: Json)
    requires SortKeys(a) == SortKeys(b) && ShapeOf(a).distinct && ShapeOf(b).distinct
    ensures a.Arr? ==> b.Arr? && |a.items| == |b.items| && SortItems(a.items) == SortItems(b.items)
    ensures a.Obj? ==>
              && b.Obj? && |a.members| == |b.members| && UniqueKeys(b.members)
              && forall m :: m in SortValues(a.members) ==> m in SortValues(b.members)
  {
    if a.Arr? {
      assert |a.items| == |SortItems(a.items)| && |b.items| == |SortItems(b.items)|;
    }
    if a.Obj? {
      assert |a.members| == |Sort(KeyLeq, SortValues(a.members))|;
      assert |b.members| == |Sort(KeyLeq, SortValues(b.members))|;
      SameMembersSort(a.members, b.members);
    }
  }

  /** Equal items: the result is True if all fit, and a raise if not. */
  lemma {:induction false} ItemsTooDeep(a: seq<Json>, b: seq<Json>, depth: nat)
    requires |a| == |b| && ShapeOfItems(a).distinct && ShapeOfItems(b).distinct && SortItems(a) == SortItems(b)
    requires depth <= MAX_JSON_DEPTH + 1 && depth + ShapeOfItems(a).height > MAX_JSON_DEPTH
    ensures EqualItems(a, b, depth) == Raises
    decreases a, 0
  {
    if a != [] {
      assert SortItems(a)[1..] == SortItems(a[1..]) && SortItems(b)[1..] == SortItems(b[1..]);
      assert SortKeys(a[0]) == SortItems(a)[0] == SortKeys(b[0]);
      OneTooDeep(a[0], b[0], depth);
      hide ExactEqual, SortKeys, ShapeOf;
      if depth + ShapeOf(a[0]).height <= MAX_JSON_DEPTH {
        ItemsTooDeep(a[1..], b[1..], depth);
      }
    }
  }

  lemma {:induction false} OneTooDeep(a: Json, b: Json, depth: nat)
    requires ShapeOf(a).distinct && ShapeOf(b).distinct && SortKeys(a) == SortKeys(b)
    ensures ExactEqual(a, b, depth)
         == if depth + ShapeOf(a).height <= MAX_JSON_DEPTH then Same(true) else Raises
    decreases a, 3
  {
    if depth + ShapeOf(a).height <= MAX_JSON_DEPTH {
      ExactEqualDecides(a, b, depth);
    } else {
      ExactEqualTooDeep(a, b, depth);
    }
  }

  lemma {:induction false} MembersTooDeep(a: seq<Member>, b: seq<Member>, depth: nat)
    requires ShapeOfMembers(a).distinct && ShapeOfMembers(b).distinct && UniqueKeys(b)
    requires forall m :: m in SortValues(a) ==> m in SortValues(b)
    requires depth <= MAX_JSON_DEPTH + 1 && depth + ShapeOfMembers(a).height > MAX_JSON_DEPTH
    ensures EqualMembers(a, b, depth) == Raises
    decreases a, 0
  {
    if a != [] {
      var head := Member(a[0].key, SortKeys(a[0].value));
      assert SortValues(a) == [head] + SortValues(a[1..]);
      AllMembers(head, SortValues(a[1..]), SortValues(b));
      LookupDecides(a[0], b);
      var other := Lookup(b, a[0].key).value;
      LookupShape(b, a[0].key);
      OneTooDeep(a[0].value, other, depth);
      hide ExactEqual, SortKeys, ShapeOf, SortValues, Lookup;
      if depth + ShapeOf(a[0].value).height <= MAX_JSON_DEPTH {
        MembersTooDeep(a[1..], b, depth);
      }
    }
  }

  /** Structural equality and equality of canonical bytes are the same relation, so the order of keys
      never matters and no two of bool, int, string and null are confused. */
  lemma ExactEqualIsByteEquality(a: Json, b: Json)
    requires ShapeOf(a).distinct && ShapeOf(b).distinct && DepthFits(ShapeOf(a), ShapeOf(b), 0)
    ensures ExactEqual(a, b, 0) == Same(Encode(CanonicalText(a)) == Encode(CanonicalText(b)))
  {
    ExactEqualDecides(a, b, 0);
    CanonicalDecides(a, b);
    if Encode(CanonicalText(a)) == Encode(CanonicalText(b)) {
      EncodeInjective(CanonicalText(a), CanonicalText(b));
    }
  }

  /** The last check of attestation verification never fires: once the stored bytes parse and equal
      the canonical bytes of what was expected, the exact comparison answers true. */
  lemma FinalComparisonNeverFails(content: Bytes, expected: Json)
    requires ParseCanonicalJson(content).Ok? && ShapeOf(expected).distinct
    requires CanonicalBytes(expected, MAX_ATTESTATION_BYTES) == Ok(content)
    ensures ExactEqual(ParseCanonicalJson(content).value, expected, 0) == Same(true)
  {
    var actual := ParseCanonicalJson(content).value;
    ParseAcceptsExactly(content, actual);
    ExactEqualIsByteEquality(actual, expected);
  }
}
