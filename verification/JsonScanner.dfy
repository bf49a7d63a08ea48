/** The lexical scan that bounds nesting and node count before anything is decoded, and what its
    counters say about the tree the bytes decode to. */
module JsonScanner {
  import opened Wrappers
  import opened Numbers
  import opened Utf8
  import opened Json
  import opened JsonDecoder
  import opened JsonGrammar

  const MAX_JSON_DEPTH := 64
  const MAX_JSON_NODES := 100_000

  /** The scanner's variables, `peak` being the largest `depth` so far and `stopped` the early
      `break`.  A true entry of `containers` is an object. */
  datatype Scan = Scan(depth: int, nodes: nat, peak: nat, containers: seq<bool>, expectKey: bool,
                       inString: bool, escaped: bool, inLiteral: bool, stopped: bool)

  const START := Scan(0, 0, 0, [], false, false, false, false, false)

  /** One byte, counting without any limit. */
  function Step(st: Scan, byte: Byte): Scan {
    if st.stopped then st
    else if st.inString then
      if st.escaped then st.(escaped := false)
      else if byte == BACKSLASH then st.(escaped := true)
      else if byte == QUOTE then
        if st.expectKey then st.(inString := false, expectKey := false)
        else st.(inString := false, nodes := st.nodes + 1)
      else st
    else if byte == QUOTE then st.(inString := true, inLiteral := false)
    else if byte == LBRACKET || byte == LBRACE then
      Open(st, byte == LBRACE)
    else if byte == RBRACKET || byte == RBRACE then
      Close(st)
    else if byte == COMMA then
      st.(expectKey := st.containers != [] && st.containers[|st.containers|-1], inLiteral := false)
    else if byte == COLON then st.(expectKey := false, inLiteral := false)
    else if Space(byte) then st.(inLiteral := false)
    else st.(nodes := if st.inLiteral then st.nodes else st.nodes + 1, inLiteral := true)
  }

  function Open(st: Scan, isObject: bool): Scan {
    st.(nodes := st.nodes + 1, depth := st.depth + 1, peak := Max(st.peak, st.depth + 1),
        containers := st.containers + [isObject], expectKey := isObject, inLiteral := false)
  }

  function Close(st: Scan): Scan {
    st.(depth := st.depth - 1,
        containers := if st.containers == [] then [] else st.containers[..|st.containers|-1],
        expectKey := false, inLiteral := st.inLiteral && st.depth <= 0, stopped := st.depth <= 0)
  }

  function Track(st: Scan, content: Bytes): Scan
    decreases |content|
  {
    if content == [] then st else Track(Step(st, content[0]), content[1..])
  }

  predicate WithinScanLimits(st: Scan) { st.nodes <= MAX_JSON_NODES && st.peak <= MAX_JSON_DEPTH }

  lemma {:induction false} TrackMonotone(st: Scan, content: Bytes)
    ensures st.nodes <= Track(st, content).nodes && st.peak <= Track(st, content).peak
    decreases |content|
  {
    if content != [] {
      TrackMonotone(Step(st, content[0]), content[1..]);
    }
  }

  lemma {:induction false} TrackConcat(st: Scan, a: Bytes, b: Bytes)
    ensures Track(st, a + b) == Track(Track(st, a), b)
    decreases |a|
  {
    if a == [] {
      assert a + b == b;
    } else {
      assert (a + b)[0] == a[0] && (a + b)[1..] == a[1..] + b;
      TrackConcat(Step(st, a[0]), a[1..], b);
    }
  }

  datatype ScanError = TooManyNodes | TooDeep

  /** `_reject_excessive_json_nesting`.  It raises at the first byte that takes a counter over its
      limit, so it returns normally exactly when the whole unlimited count stays within both. */
  method RejectExcessiveNesting(content: Bytes) returns (raised: Option<ScanError>)
    ensures raised.None? <==> WithinScanLimits(Track(START, content))
    ensures raised.Some? ==>
              exists k :: 0 < k <= |content| && WithinScanLimits(Track(START, content[..k-1]))
                && !WithinScanLimits(Track(START, content[..k]))
                && raised.value == if Track(START, content[..k]).nodes > MAX_JSON_NODES then TooManyNodes else TooDeep
  {
    var depth: int, nodes: nat := 0, 0;
    var containers: seq<bool> := [];
    var expectKey, inString, escaped, inLiteral := false, false, false, false;
    ghost var st := START;
    var i := 0;
    while i < |content|
      invariant 0 <= i <= |content|
      invariant st == Track(START, content[..i])
      invariant st == Scan(depth, nodes, st.peak, containers, expectKey, inString, escaped, inLiteral, false)
      invariant WithinScanLimits(st) && depth == |containers|
    {
      var byte := content[i];
      assert content[..i+1] == content[..i] + [byte];
      TrackConcat(START, content[..i], [byte]);
      assert content == content[..i+1] + content[i+1..];
      TrackConcat(START, content[..i+1], content[i+1..]);
      st := Step(st, byte);
      assert st == Track(START, content[..i+1]);
      TrackMonotone(st, content[i+1..]);
      assert content[..i+1-1] == content[..i];
      i := i + 1;
      if inString {
        if escaped {
          escaped := false;
        } else if byte == 0x5C {
          escaped := true;
        } else if byte == 0x22 {
          inString := false;
          if expectKey {
            expectKey := false;
          } else {
            nodes := nodes + 1;
            if nodes > MAX_JSON_NODES {
              return Some(TooManyNodes);
            }
          }
        }
        continue;
      }
      if byte == 0x22 {
        inString := true;
        inLiteral := false;
        continue;
      }
      var inLiteralByte := false;
      if byte == 0x5B || byte == 0x7B {
        nodes := nodes + 1;
        if nodes > MAX_JSON_NODES {
          return Some(TooManyNodes);
        }
        depth := depth + 1;
        if depth > MAX_JSON_DEPTH {
          return Some(TooDeep);
        }
        containers := containers + [byte == 0x7B];
        expectKey := byte == 0x7B;
      } else if byte == 0x5D || byte == 0x7D {
        depth := depth - 1;
        if containers != [] {
          containers := containers[..|containers|-1];
        }
        expectKey := false;
        if depth < 0 {
          assert st.stopped;
          StoppedStays(st, content[i..]);
          break;
        }
      } else if byte == 0x2C {
        expectKey := containers != [] && containers[|containers|-1];
      } else if byte == 0x3A {
        expectKey := false;
      } else if Space(byte) {
      } else {
        inLiteralByte := true;
        if !inLiteral {
          nodes := nodes + 1;
          if nodes > MAX_JSON_NODES {
            return Some(TooManyNodes);
          }
        }
      }
      inLiteral := inLiteralByte;
    }
    assert i == |content| ==> content[..i] == content;
    return None;
  }

  lemma {:induction false} StoppedStays(st: Scan, content: Bytes)
    requires st.stopped
    ensures Track(st, content) == st
  {
    if content != [] {
      StoppedStays(Step(st, content[0]), content[1..]);
    }
  }

  // ----- The scan follows the decoder

  /** Scanning a text from its encoded bytes. */
  function Over(st: Scan, s: Text): Scan { Track(st, Encode(s)) }

  lemma OverAscii(st: Scan, s: Text)
    requires s != [] && s[0] < 0x80
    ensures Over(st, s) == Over(Step(st, s[0]), s[1..])
  {
    assert Encode(s) == [s[0]] + Encode(s[1..]);
    assert Encode(s)[1..] == Encode(s[1..]);
  }

  /** A state where a value may begin. */
  predicate Ready(st: Scan) {
    !st.stopped && !st.inString && !st.escaped && !st.expectKey && !st.inLiteral && st.depth == |st.containers|
  }

  predicate InsideString(st: Scan) { !st.stopped && st.inString && !st.escaped }

  lemma {:induction false} PlainBytes(st: Scan, b: Bytes)
    requires InsideString(st) && forall i :: 0 <= i < |b| ==> b[i] != QUOTE && b[i] != BACKSLASH
    ensures Track(st, b) == st
  {
    if b != [] {
      PlainBytes(st, b[1..]);
    }
  }

  lemma OverPlain(st: Scan, s: Text, k: nat)
    requires InsideString(st) && k <= |s|
    requires forall i :: 0 <= i < k ==> s[i] != QUOTE && s[i] != BACKSLASH
    ensures Over(st, s) == Over(st, s[k..])
  {
    var b := Encode(s[..k]);
    AsciiOccurs(s[..k], QUOTE);
    AsciiOccurs(s[..k], BACKSLASH);
    PlainBytes(st, b);
    assert s == s[..k] + s[k..];
    EncodeConcat(s[..k], s[k..]);
    TrackConcat(st, b, Encode(s[k..]));
  }

  /** A backslash and the character after it. */
  lemma OverEscape(st: Scan, s: Text)
    requires InsideString(st) && |s| >= 2 && s[0] == BACKSLASH && s[1] < 0x80
    ensures Over(st, s) == Over(st, s[2..])
  {
    OverAscii(st, s);
    OverAscii(Step(st, s[0]), s[1..]);
  }

  lemma OverUnicodeEscape(st: Scan, s: Text)
    requires InsideString(st) && |s| >= 6 && s[0] == BACKSLASH && s[1] == 0x75 && Hex4(s[2..]).Some?
    ensures Over(st, s) == Over(st, s[6..])
  {
    OverEscape(st, s);
    var t := s[2..];
    assert forall i :: 0 <= i < 4 ==> HexValue(t[i]).Some?;
    OverPlain(st, t, 4);
    assert t[4..] == s[6..];
  }

  lemma OverPoint(st: Scan, s: Text)
    requires InsideString(st) && s != [] && s[0] != QUOTE && ParsePoint(s).Done?
    ensures Over(st, s) == Over(st, ParsePoint(s).rest)
  {
    if s[0] != BACKSLASH {
      OverPlain(st, s, 1);
    } else if s[1] == 0x75 {
      OverUnicodeEscape(st, s);
      if ParsePoint(s).rest != s[6..] {
        var t := s[6..];
        assert t[2..] == s[8..];
        OverUnicodeEscape(st, t);
        assert t[6..] == s[12..];
      }
    } else {
      OverEscape(st, s);
    }
  }

  /** A string body and its closing quote. */
  lemma {:induction false} OverString(st: Scan, s: Text)
    requires InsideString(st) && ParseString(s).Done?
    ensures Over(st, s) == Over(Step(st, QUOTE), ParseString(s).rest)
    decreases |s|
  {
    if s[0] == QUOTE {
      OverAscii(st, s);
    } else {
      OverPoint(st, s);
      OverString(st, ParsePoint(s).rest);
    }
  }

  lemma {:induction false} OverSpace(st: Scan, s: Text)
    requires !st.stopped && !st.inString
    ensures Over(st, s) == Over(if SkipSpace(s) == s then st else st.(inLiteral := false), SkipSpace(s))
    decreases |s|
  {
    if s != [] && Space(s[0]) {
      OverAscii(st, s);
      OverSpace(Step(st, s[0]), s[1..]);
    }
  }

  /** White space and then a structural character, which forgets `inLiteral` in any case. */
  lemma OverSpaceThen(st: Scan, s: Text, c: CodePoint)
    requires !st.stopped && !st.inString && SkipSpace(s) != [] && SkipSpace(s)[0] == c
    requires c in [QUOTE, LBRACKET, RBRACKET, LBRACE, RBRACE, COMMA, COLON]
    requires st.depth >= 1
    ensures Over(st, s) == Over(Step(st, c), SkipSpace(s)[1..])
  {
    OverSpace(st, s);
    OverAscii(st, SkipSpace(s));
    OverAscii(st.(inLiteral := false), SkipSpace(s));
  }

  function Grown(st: Scan, inner: Shape): Scan {
    st.(nodes := st.nodes + inner.nodes, peak := Max(st.peak, st.depth + inner.nesting))
  }

  predicate Literal(v: Json) { v.Null? || v.Bool? || v.Num? }

  ghost function After(st: Scan, v: Json): Scan {
    Grown(st, ShapeOf(v)).(inLiteral := Literal(v))
  }

  lemma {:induction false} OverLiteralBytes(st: Scan, s: Text, k: nat)
    requires !st.stopped && !st.inString && st.inLiteral && k <= |s|
    requires forall i :: 0 <= i < k ==> LiteralChar(s[i])
    ensures Over(st, s) == Over(st, s[k..])
    decreases k
  {
    if k > 0 {
      OverAscii(st, s);
      OverLiteralBytes(st, s[1..], k - 1);
      assert s[1..][k-1..] == s[k..];
    }
  }

  predicate LiteralChar(c: CodePoint) { c == MINUS || Digit(c) || 0x61 <= c <= 0x7A }

  /** A run of bare characters is one node. */
  lemma OverLiteral(st: Scan, s: Text, k: nat)
    requires Ready(st) && st.peak >= st.depth && 0 < k <= |s|
    requires forall i :: 0 <= i < k ==> LiteralChar(s[i])
    ensures Over(st, s) == Over(st.(nodes := st.nodes + 1, inLiteral := true), s[k..])
  {
    OverAscii(st, s);
    OverLiteralBytes(Step(st, s[0]), s[1..], k - 1);
    assert s[1..][k-1..] == s[k..];
  }

  lemma OverNumber(st: Scan, s: Text, maxDigits: nat)
    requires Ready(st) && st.peak >= st.depth && ParseNumber(s, maxDigits).Done?
    ensures Over(st, s) == Over(After(st, ParseNumber(s, maxDigits).value), ParseNumber(s, maxDigits).rest)
  {
    hide ParseValue, Step, Track, Encode, SpanDigits;
    var t := if s[0] == MINUS then s[1..] else s;
    var (d, rest) := IntPart(t);
    var k := |s| - |rest|;
    assert forall i :: 0 <= i < |d| ==> t[i] == d[i];
    forall i | 0 <= i < k ensures LiteralChar(s[i]) {
      if s[0] == MINUS && i > 0 {
        assert s[i] == t[i-1];
      }
    }
    OverLiteral(st, s, k);
    assert s[k..] == rest;
  }

  // How the counters add up around one container's contents.

  lemma GrowItems(st: Scan, v: Json, items: seq<Json>)
    requires Ready(st) && st.depth >= 1 && st.peak >= st.depth && !st.containers[|st.containers|-1]
    ensures var next := After(st, v).(inLiteral := false);
            && Ready(next) && Step(After(st, v), COMMA) == next
            && Grown(next, ShapeOfItems(items)) == Grown(st, ShapeOfItems([v] + items))
  {
    assert ([v] + items)[1..] == items;
  }

  lemma LastItem(st: Scan, v: Json)
    requires Ready(st) && st.depth >= 1 && st.peak >= st.depth
    ensures Close(After(st, v)) == Close(Grown(st, ShapeOfItems([v])))
  {
    assert [v][1..] == [];
  }

  lemma GrowMembers(st: Scan, m: Member, members: seq<Member>)
    requires Ready(st) && st.depth >= 1 && st.peak >= st.depth && st.containers[|st.containers|-1]
    ensures var next := After(st, m.value).(inLiteral := false);
            && Ready(next) && Step(After(st, m.value), COMMA) == next.(expectKey := true)
            && Grown(next, ShapeOfMembers(members)) == Grown(st, ShapeOfMembers([m] + members))
  {
    assert ([m] + members)[1..] == members;
  }

  lemma LastMember(st: Scan, m: Member)
    requires Ready(st) && st.depth >= 1 && st.peak >= st.depth
    ensures Close(After(st, m.value)) == Close(Grown(st, ShapeOfMembers([m])))
  {
    assert [m][1..] == [];
  }

  lemma CloseContainer(st: Scan, isObject: bool, inner: Shape, shape: Shape)
    requires Ready(st) && st.peak >= st.depth
    requires shape.nodes == inner.nodes + 1 && shape.nesting == inner.nesting + 1
    ensures var entered := Open(st, isObject).(expectKey := false);
            && Ready(entered) && entered.depth >= 1 && entered.peak >= entered.depth
            && entered.containers[|entered.containers|-1] == isObject
            && Close(Grown(entered, inner)) == Grown(st, shape)
  {
    assert (st.containers + [isObject])[..|st.containers|] == st.containers;
  }

  /** From a state where a value may begin, scanning its text adds the value's node count and
      nesting, and nothing else survives of it. */
  lemma {:induction false} OverValue(st: Scan, s: Text, maxDigits: nat)
    requires Ready(st) && st.peak >= st.depth && ParseValue(s, maxDigits).Done?
    ensures Over(st, s) == Over(After(st, ParseValue(s, maxDigits).value), ParseValue(s, maxDigits).rest)
    decreases |s|, 3
  {
    if s[0] == LBRACKET {
      OverArray(st, s, maxDigits);
    } else if s[0] == LBRACE {
      OverObject(st, s, maxDigits);
    } else {
      OverScalar(st, s, maxDigits);
    }
  }

  lemma OverScalar(st: Scan, s: Text, maxDigits: nat)
    requires Ready(st) && st.peak >= st.depth && ParseValue(s, maxDigits).Done?
    requires s[0] != LBRACKET && s[0] != LBRACE
    ensures Over(st, s) == Over(After(st, ParseValue(s, maxDigits).value), ParseValue(s, maxDigits).rest)
  {
    hide ParseString, ParseNumber, Step, Track, Encode, After;
    if s[0] == QUOTE {
      OverQuoted(st, s);
    } else if NULL_TEXT <= s || TRUE_TEXT <= s || FALSE_TEXT <= s {
      OverWord(st, s, maxDigits);
    } else {
      OverNumber(st, s, maxDigits);
    }
  }

  lemma OverQuoted(st: Scan, s: Text)
    requires Ready(st) && s != [] && s[0] == QUOTE && ParseString(s[1..]).Done?
    requires st.peak >= st.depth
    ensures Over(st, s) == Over(After(st, Str(ParseString(s[1..]).value)), ParseString(s[1..]).rest)
  {
    hide EncodePoint, Encode, Track, ParsePoint;
    OverAscii(st, s);
    OverString(Step(st, QUOTE), s[1..]);
  }

  lemma OverWord(st: Scan, s: Text, maxDigits: nat)
    requires Ready(st) && st.peak >= st.depth
    requires NULL_TEXT <= s || TRUE_TEXT <= s || FALSE_TEXT <= s
    ensures ParseValue(s, maxDigits).Done?
    ensures Over(st, s) == Over(After(st, ParseValue(s, maxDigits).value), ParseValue(s, maxDigits).rest)
  {
    var word := if NULL_TEXT <= s then NULL_TEXT else if TRUE_TEXT <= s then TRUE_TEXT else FALSE_TEXT;
    assert forall i :: 0 <= i < |word| ==> s[i] == word[i];
    OverLiteral(st, s, |word|);
  }

  lemma {:induction false} OverArray(st: Scan, s: Text, maxDigits: nat)
    requires Ready(st) && st.peak >= st.depth && s != [] && s[0] == LBRACKET
    requires ParseArray(SkipSpace(s[1..]), maxDigits).Done?
    ensures var p := ParseArray(SkipSpace(s[1..]), maxDigits);
            Over(st, s) == Over(After(st, p.value), p.rest)
    decreases |s|, 2
  {
    hide ParseValue, ParseItems, Track, Encode;
    var inner, t := Open(st, false), SkipSpace(s[1..]);
    OverAscii(st, s);
    if t[0] == RBRACKET {
      OverSpaceThen(inner, s[1..], RBRACKET);
      CloseContainer(st, false, NO_SHAPE, ShapeOf(Arr([])));
    } else {
      OverSpace(inner, s[1..]);
      var items := ParseItems(t, maxDigits).value;
      CloseContainer(st, false, ShapeOfItems(items), ShapeOf(Arr(items)));
      OverItems(inner, t, maxDigits);
    }
  }

  lemma OpenObject(st: Scan, s: Text)
    requires Ready(st) && s != [] && s[0] == LBRACE
    ensures var inner := Open(st, true);
            && Over(st, s) == Over(inner, s[1..]) && !inner.stopped && !inner.inString && !inner.inLiteral
            && inner.(expectKey := false).(expectKey := true) == inner
            && Step(inner, RBRACE) == Close(inner) == Close(inner.(expectKey := false))
            && (st.depth >= 0 ==> inner.depth >= 1)
  {
    OverAscii(st, s);
  }

  lemma {:induction false} OverObject(st: Scan, s: Text, maxDigits: nat)
    requires Ready(st) && st.peak >= st.depth && s != [] && s[0] == LBRACE
    requires ParseObject(SkipSpace(s[1..]), maxDigits).Done?
    ensures var p := ParseObject(SkipSpace(s[1..]), maxDigits);
            Over(st, s) == Over(After(st, p.value), p.rest)
    decreases |s|, 2
  {
    hide ParseValue, ParseMembers, Track, Encode, Open, Close, Step;
    var inner, t := Open(st, true), SkipSpace(s[1..]);
    OpenObject(st, s);
    if t[0] == RBRACE {
      OverSpaceThen(inner, s[1..], RBRACE);
      CloseContainer(st, true, NO_SHAPE, ShapeOf(Obj([])));
    } else {
      OverSpace(inner, s[1..]);
      OverEntries(st, t, maxDigits);
    }
  }

  /** The members of an object just opened, through its closing brace. */
  lemma {:induction false} OverEntries(st: Scan, t: Text, maxDigits: nat)
    requires Ready(st) && st.peak >= st.depth && ParseMembers(t, maxDigits).Done?
    ensures var p := ParseMembers(t, maxDigits);
            Over(Open(st, true), t) == Over(After(st, Obj(p.value)), p.rest)
    decreases |t|, 6
  {
    hide ParseMembers, Track, Encode, Close, Over;
    var entered := Open(st, true).(expectKey := false);
    var members := ParseMembers(t, maxDigits).value;
    CloseContainer(st, true, ShapeOfMembers(members), ShapeOf(Obj(members)));
    OverMembers(entered, t, maxDigits);
    assert entered.(expectKey := true) == Open(st, true);
  }

  lemma OverItemComma(st: Scan, v: Json, rest: Text, items: seq<Json>)
    requires Ready(st) && st.depth >= 1 && st.peak >= st.depth && !st.containers[|st.containers|-1]
    requires SkipSpace(rest) != [] && SkipSpace(rest)[0] == COMMA
    ensures var next := After(st, v).(inLiteral := false);
            && Ready(next)
            && Over(After(st, v), rest) == Over(next, SkipSpace(SkipSpace(rest)[1..]))
            && Grown(next, ShapeOfItems(items)) == Grown(st, ShapeOfItems([v] + items))
  {
    var after := After(st, v);
    GrowItems(st, v, items);
    OverSpaceThen(after, rest, COMMA);
    OverSpace(after.(inLiteral := false), SkipSpace(rest)[1..]);
  }

  lemma OverBracket(st: Scan, v: Json, rest: Text)
    requires Ready(st) && st.depth >= 1 && st.peak >= st.depth
    requires SkipSpace(rest) != [] && SkipSpace(rest)[0] == RBRACKET
    ensures Over(After(st, v), rest) == Over(Close(Grown(st, ShapeOfItems([v]))), SkipSpace(rest)[1..])
  {
    OverSpaceThen(After(st, v), rest, RBRACKET);
    LastItem(st, v);
  }

  lemma {:induction false} OverItems(st: Scan, s: Text, maxDigits: nat)
    requires Ready(st) && st.depth >= 1 && st.peak >= st.depth && !st.containers[|st.containers|-1]
    requires ParseItems(s, maxDigits).Done?
    ensures var p := ParseItems(s, maxDigits);
            Over(st, s) == Over(Close(Grown(st, ShapeOfItems(p.value))), p.rest)
    decreases |s|, 4
  {
    hide ParseValue, Step, ShapeOf, Track;
    var Done(v, rest) := ParseValue(s, maxDigits);
    OverValue(st, s, maxDigits);
    var t := SkipSpace(rest);
    if t[0] == COMMA {
      var u := SkipSpace(t[1..]);
      OverItemComma(st, v, rest, ParseItems(u, maxDigits).value);
      OverItems(After(st, v).(inLiteral := false), u, maxDigits);
    } else {
      OverBracket(st, v, rest);
    }
  }

  /** A key, which is not counted, and its value. */
  lemma {:induction false} OverMember(st: Scan, s: Text, maxDigits: nat)
    requires Ready(st) && st.depth >= 1 && st.peak >= st.depth && ParseMember(s, maxDigits).Done?
    ensures var p := ParseMember(s, maxDigits);
            Over(st.(expectKey := true), s) == Over(After(st, p.value.value), p.rest)
    decreases |s|, 4
  {
    hide ParseValue, Track, Encode;
    var rest := ParseString(s[1..]).rest;
    var t := SkipSpace(rest);
    OverKey(st, s);
    OverSpaceThen(st, rest, COLON);
    OverSpace(st, t[1..]);
    OverValue(st, SkipSpace(t[1..]), maxDigits);
  }

  lemma OverKey(st: Scan, s: Text)
    requires Ready(st) && s != [] && s[0] == QUOTE && ParseString(s[1..]).Done?
    ensures Over(st.(expectKey := true), s) == Over(st, ParseString(s[1..]).rest)
  {
    var before := st.(expectKey := true);
    OverAscii(before, s);
    OverString(Step(before, QUOTE), s[1..]);
  }

  lemma OverComma(st: Scan, m: Member, rest: Text, members: seq<Member>)
    requires Ready(st) && st.depth >= 1 && st.peak >= st.depth && st.containers[|st.containers|-1]
    requires SkipSpace(rest) != [] && SkipSpace(rest)[0] == COMMA
    ensures var next := After(st, m.value).(inLiteral := false);
            && Ready(next)
            && Over(After(st, m.value), rest) == Over(next.(expectKey := true), SkipSpace(SkipSpace(rest)[1..]))
            && Grown(next, ShapeOfMembers(members)) == Grown(st, ShapeOfMembers([m] + members))
  {
    var after := After(st, m.value);
    GrowMembers(st, m, members);
    OverSpaceThen(after, rest, COMMA);
    OverSpace(after.(inLiteral := false, expectKey := true), SkipSpace(rest)[1..]);
  }

  lemma OverBrace(st: Scan, m: Member, rest: Text)
    requires Ready(st) && st.depth >= 1 && st.peak >= st.depth
    requires SkipSpace(rest) != [] && SkipSpace(rest)[0] == RBRACE
    ensures Over(After(st, m.value), rest) == Over(Close(Grown(st, ShapeOfMembers([m]))), SkipSpace(rest)[1..])
  {
    OverSpaceThen(After(st, m.value), rest, RBRACE);
    LastMember(st, m);
  }

  lemma {:induction false} OverMembers(st: Scan, s: Text, maxDigits: nat)
    requires Ready(st) && st.depth >= 1 && st.peak >= st.depth && st.containers[|st.containers|-1]
    requires ParseMembers(s, maxDigits).Done?
    ensures var p := ParseMembers(s, maxDigits);
            Over(st.(expectKey := true), s) == Over(Close(Grown(st, ShapeOfMembers(p.value))), p.rest)
    decreases |s|, 5
  {
    hide ParseMember, ParseValue, Step, ShapeOf, Track;
    var Done(m, rest) := ParseMember(s, maxDigits);
    OverMember(st, s, maxDigits);
    var t := SkipSpace(rest);
    if t[0] == COMMA {
      var u := SkipSpace(t[1..]);
      OverComma(st, m, rest, ParseMembers(u, maxDigits).value);
      OverMembers(After(st, m.value).(inLiteral := false), u, maxDigits);
    } else {
      OverBrace(st, m, rest);
    }
  }

  /** For every text the decoder accepts, however it is spelled, the scan of its bytes ends balanced,
      has counted exactly the nodes of the decoded tree, and has peaked at its container nesting. */
  lemma ScanCountsTree(text: Text, maxDigits: nat)
    requires Loads(text, maxDigits).Some?
    ensures var st, shape := Track(START, Encode(text)), ShapeOf(Loads(text, maxDigits).value);
            && st.nodes == shape.nodes && st.peak == shape.nesting
            && st.depth == 0 && st.containers == [] && !st.inString && !st.stopped
  {
    var s := SkipSpace(text);
    OverSpace(START, text);
    OverValue(START, s, maxDigits);
    var Done(v, rest) := ParseValue(s, maxDigits);
    OverSpace(After(START, v), rest);
    assert Encode([]) == [];
  }

  /** In particular for every legal spelling of a value without repeated keys: any white space, any
      escapes. */
  lemma ScanOfSpelling(e: Element, maxDigits: nat)
    requires ElementOk(e, maxDigits) && ShapeOf(Meaning(e.node, maxDigits)).distinct
    ensures var st, shape := Track(START, Encode(ElementText(e))), ShapeOf(Meaning(e.node, maxDigits));
            && st.nodes == shape.nodes && st.peak == shape.nesting
            && st.depth == 0 && st.containers == [] && !st.inString && !st.stopped
  {
    SpellingDecodes(e, maxDigits);
    ScanCountsTree(ElementText(e), maxDigits);
  }

  // ----- Scanner limits against post-parse limits

  /** The node and depth limits of `_validate_json_resources`. */
  predicate WithinTreeLimits(shape: Shape) { shape.nodes <= MAX_JSON_NODES && shape.height <= MAX_JSON_DEPTH }

  /** Every container `k` levels down is empty. */
  ghost predicate EmptyAt(v: Json, k: nat)
    decreases v
  {
    match v
    case Arr(items) =>
      if k == 0 then items == [] else forall i :: 0 <= i < |items| ==> EmptyAt(items[i], k - 1)
    case Obj(members) =>
      if k == 0 then members == [] else forall i :: 0 <= i < |members| ==> EmptyAt(members[i].value, k - 1)
    case _ => true
  }

  lemma {:induction false} ItemShape(items: seq<Json>, i: nat)
    requires i < |items|
    ensures ShapeOf(items[i]).height <= ShapeOfItems(items).height
    ensures ShapeOf(items[i]).nesting <= ShapeOfItems(items).nesting
  {
    if i > 0 {
      ItemShape(items[1..], i - 1);
    }
  }

  lemma {:induction false} MemberShape(members: seq<Member>, i: nat)
    requires i < |members|
    ensures ShapeOf(members[i].value).height <= ShapeOfMembers(members).height
    ensures ShapeOf(members[i].value).nesting <= ShapeOfMembers(members).nesting
  {
    if i > 0 {
      MemberShape(members[1..], i - 1);
    }
  }

  lemma {:induction false} EmptyAtItems(items: seq<Json>, k: nat)
    requires ShapeOfItems(items).nesting <= k + 1
    ensures ShapeOfItems(items).height <= k <==> forall i :: 0 <= i < |items| ==> EmptyAt(items[i], k)
    decreases items, 0
  {
    if items != [] {
      EmptyAtHeight(items[0], k);
      EmptyAtItems(items[1..], k);
      assert forall i :: 0 < i < |items| ==> items[i] == items[1..][i-1];
    }
  }

  lemma {:induction false} EmptyAtMembers(members: seq<Member>, k: nat)
    requires ShapeOfMembers(members).nesting <= k + 1
    ensures ShapeOfMembers(members).height <= k <==> forall i :: 0 <= i < |members| ==> EmptyAt(members[i].value, k)
    decreases members, 0
  {
    if members != [] {
      EmptyAtHeight(members[0].value, k);
      EmptyAtMembers(members[1..], k);
      assert forall i :: 0 < i < |members| ==> members[i] == members[1..][i-1];
    }
  }

  /** With containers nested at most `k` + 1 deep, the deepest value is at most `k` down exactly when
      the innermost containers that could hold a deeper one are all empty. */
  lemma {:induction false} EmptyAtHeight(v: Json, k: nat)
    requires ShapeOf(v).nesting <= k + 1
    ensures ShapeOf(v).height <= k <==> EmptyAt(v, k)
    decreases v, 0
  {
    match v
    case Arr(items) =>
      if k == 0 {
        assert items != [] ==> ShapeOfItems(items).height >= ShapeOf(items[0]).height;
      } else {
        EmptyAtItems(items, k - 1);
      }
    case Obj(members) =>
      if k == 0 {
        assert members != [] ==> ShapeOfMembers(members).height >= ShapeOf(members[0].value).height;
      } else {
        EmptyAtMembers(members, k - 1);
      }
    case _ =>
  }

  /** What the scanner's docstring promises, stated exactly.  A document the scanner lets through is
      within the post-parse node and depth limits.  The converse promise fails: the scanner refuses a
      document the post-parse limits accept exactly when its containers nest one deeper than
      MAX_JSON_DEPTH and every container at the deepest level is empty. */
  lemma ScannerAgainstTreeLimits(text: Text, maxDigits: nat)
    requires Loads(text, maxDigits).Some?
    ensures var v := Loads(text, maxDigits).value;
            var scanned, accepted := WithinScanLimits(Track(START, Encode(text))), WithinTreeLimits(ShapeOf(v));
            && (scanned ==> accepted)
            && (accepted && !scanned <==>
                ShapeOf(v).nodes <= MAX_JSON_NODES && ShapeOf(v).nesting == MAX_JSON_DEPTH + 1
                && EmptyAt(v, MAX_JSON_DEPTH))
  {
    ScanCountsTree(text, maxDigits);
    var v := Loads(text, maxDigits).value;
    if ShapeOf(v).nesting == MAX_JSON_DEPTH + 1 {
      EmptyAtHeight(v, MAX_JSON_DEPTH);
    }
  }

  /** `[[...[]...]]` with `n` pairs of brackets. */
  function Nested(n: nat): (v: Json)
    requires n > 0
  {
    if n == 1 then Arr([]) else Arr([Nested(n - 1)])
  }

  lemma SingletonShape(v: Json)
    ensures ShapeOf(Arr([v])) == Enclose(Merge(ShapeOf(v), NO_SHAPE))
  {
    assert ShapeOfItems([v]) == Merge(ShapeOf([v][0]), ShapeOfItems([v][1..]));
  }

  lemma DeeperShape(v: Json, n: nat)
    requires n > 0 && ShapeOf(v) == Shape(n, n - 1, n, 0, 0, true, true)
    ensures ShapeOf(Arr([v])) == Shape(n + 1, n, n + 1, 0, 0, true, true)
  {
    hide ShapeOf;
    SingletonShape(v);
  }

  lemma {:induction false} NestedShape(n: nat)
    requires n > 0
    ensures ShapeOf(Nested(n)) == Shape(n, n - 1, n, 0, 0, true, true)
  {
    if n == 1 {
      EmptyShape();
    } else {
      hide ShapeOf;
      NestedShape(n - 1);
      DeeperShape(Nested(n - 1), n - 1);
    }
  }

  lemma EmptyShape()
    ensures ShapeOf(Arr([])) == Shape(1, 0, 1, 0, 0, true, true)
  {
    assert ShapeOfItems([]) == NO_SHAPE;
  }

  /** The document that breaks the docstring's promise: 65 nested empty arrays. */
  lemma ScannerRefusesAcceptableDocument()
    ensures exists text :: && Loads(text, 0).Some? && WithinTreeLimits(ShapeOf(Loads(text, 0).value))
                           && !WithinScanLimits(Track(START, Encode(text)))
  {
    var v := Nested(MAX_JSON_DEPTH + 1);
    NestedShape(MAX_JSON_DEPTH + 1);
    LoadsCanonical(v, 0);
    SortKeysShape(v);
    ScanCountsTree(CanonicalText(v), 0);
  }
}
