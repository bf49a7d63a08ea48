/** Concrete JSON texts as RFC 8259, sections 2, 6 and 7, lets them be spelled (any white space, any
    escapes), and the fact that the decoder reads every one of them as the value it spells. */
module JsonGrammar {
  import opened Wrappers
  import opened Utf8
  import opened Json
  import opened JsonDecoder

  /** One character of a string body: itself, a two-character escape, `\uXXXX`, or a surrogate pair. */
  datatype Char = Plain(c: CodePoint) | Short(letter: CodePoint) | Hex(digits: Text) | Pair(high: Text, low: Text)

  datatype Node =
    | NullNode
    | BoolNode(b: bool)
    | NumNode(negative: bool, digits: Text)
    | StrNode(chars: seq<Char>)
    | ArrNode(space: Text, elements: seq<Element>)
    | ObjNode(space: Text, entries: seq<Entry>)

  /** White space, a value, white space. */
  datatype Element = Element(before: Text, node: Node, after: Text)

  datatype Entry = Entry(before: Text, key: seq<Char>, gap: Text, element: Element)

  // ----- The text of a spelling

  const ESCAPE_U: Text := [BACKSLASH, 0x75]

  function CharText(ch: Char): Text {
    match ch
    case Plain(c) => [c]
    case Short(letter) => [BACKSLASH, letter]
    case Hex(digits) => ESCAPE_U + digits
    case Pair(high, low) => ESCAPE_U + high + ESCAPE_U + low
  }

  function CharsText(chars: seq<Char>): Text {
    if chars == [] then [] else CharText(chars[0]) + CharsText(chars[1..])
  }

  function NodeText(n: Node): Text
    decreases n, 0
  {
    match n
    case NullNode => NULL_TEXT
    case BoolNode(b) => if b then TRUE_TEXT else FALSE_TEXT
    case NumNode(negative, digits) => (if negative then [MINUS] else []) + digits
    case StrNode(chars) => [QUOTE] + CharsText(chars) + [QUOTE]
    case ArrNode(space, elements) =>
      [LBRACKET] + if elements == [] then space + [RBRACKET] else ElementsText(elements)
    case ObjNode(space, entries) =>
      [LBRACE] + if entries == [] then space + [RBRACE] else EntriesText(entries)
  }

  function ElementText(e: Element): Text
    decreases e, 0
  {
    e.before + NodeText(e.node) + e.after
  }

  /** Elements and commas, through the closing bracket. */
  function ElementsText(elements: seq<Element>): Text
    requires elements != []
    decreases elements, 0
  {
    ElementText(elements[0]) + if |elements| == 1 then [RBRACKET] else [COMMA] + ElementsText(elements[1..])
  }

  function EntryText(e: Entry): Text
    decreases e, 0
  {
    e.before + [QUOTE] + CharsText(e.key) + [QUOTE] + e.gap + [COLON] + ElementText(e.element)
  }

  function EntriesText(entries: seq<Entry>): Text
    requires entries != []
    decreases entries, 0
  {
    EntryText(entries[0]) + if |entries| == 1 then [RBRACE] else [COMMA] + EntriesText(entries[1..])
  }

  // ----- Which spellings are legal, and what they mean

  predicate IsHigh(unit: nat) { 0xD800 <= unit < 0xDC00 }

  predicate IsLow(unit: nat) { 0xDC00 <= unit < 0xE000 }

  predicate FourHex(digits: Text) { |digits| == 4 && Hex4(digits).Some? }

  predicate CharOk(ch: Char) {
    match ch
    case Plain(c) => c >= 0x20 && c != QUOTE && c != BACKSLASH
    case Short(letter) => Unescape(letter).Some?
    case Hex(digits) => FourHex(digits)
    case Pair(high, low) => FourHex(high) && FourHex(low) && IsHigh(Hex4(high).value) && IsLow(Hex4(low).value)
  }

  function CharMeaning(ch: Char): CodePoint
    requires CharOk(ch)
  {
    match ch
    case Plain(c) => c
    case Short(letter) => Unescape(letter).value
    case Hex(digits) => Hex4(digits).value
    case Pair(high, low) => 0x10000 + (Hex4(high).value - 0xD800) * 0x400 + (Hex4(low).value - 0xDC00)
  }

  /** Two `\uXXXX` in a row that form a surrogate pair are one character, not two. */
  predicate Separate(a: Char, b: Char)
    requires CharOk(a) && CharOk(b)
  {
    a.Hex? && b.Hex? && IsHigh(Hex4(a.digits).value) ==> !IsLow(Hex4(b.digits).value)
  }

  predicate CharsOk(chars: seq<Char>) {
    && (forall i :: 0 <= i < |chars| ==> CharOk(chars[i]))
    && (forall i :: 0 <= i < |chars| - 1 ==> Separate(chars[i], chars[i+1]))
  }

  function CharsMeaning(chars: seq<Char>): Text
    requires CharsOk(chars)
  {
    if chars == [] then [] else [CharMeaning(chars[0])] + CharsMeaning(chars[1..])
  }

  predicate AllSpace(s: Text) { forall i :: 0 <= i < |s| ==> Space(s[i]) }

  ghost predicate WellSpelled(n: Node, maxDigits: nat)
    decreases n, 0
  {
    match n
    case NumNode(_, digits) =>
      AllDigits(digits) && 0 < |digits| <= maxDigits && (digits[0] == 0x30 ==> |digits| == 1)
    case StrNode(chars) => CharsOk(chars)
    case ArrNode(space, elements) => AllSpace(space) && ElementsOk(elements, maxDigits)
    case ObjNode(space, entries) => AllSpace(space) && EntriesOk(entries, maxDigits)
    case _ => true
  }

  ghost predicate ElementOk(e: Element, maxDigits: nat)
    decreases e, 0
  {
    AllSpace(e.before) && WellSpelled(e.node, maxDigits) && AllSpace(e.after)
  }

  ghost predicate ElementsOk(elements: seq<Element>, maxDigits: nat)
    decreases elements, 0
  {
    elements == [] || (ElementOk(elements[0], maxDigits) && ElementsOk(elements[1..], maxDigits))
  }

  ghost predicate EntryOk(e: Entry, maxDigits: nat)
    decreases e, 0
  {
    AllSpace(e.before) && CharsOk(e.key) && AllSpace(e.gap) && ElementOk(e.element, maxDigits)
  }

  ghost predicate EntriesOk(entries: seq<Entry>, maxDigits: nat)
    decreases entries, 0
  {
    entries == [] || (EntryOk(entries[0], maxDigits) && EntriesOk(entries[1..], maxDigits))
  }

  ghost function Meaning(n: Node, maxDigits: nat): Json
    requires WellSpelled(n, maxDigits)
    decreases n, 0
  {
    match n
    case NullNode => Null
    case BoolNode(b) => Bool(b)
    case NumNode(negative, digits) => Num(if negative then 0 - NumberOf(digits) else NumberOf(digits))
    case StrNode(chars) => Str(CharsMeaning(chars))
    case ArrNode(_, elements) => Arr(ElementsMeaning(elements, maxDigits))
    case ObjNode(_, entries) => Obj(EntriesMeaning(entries, maxDigits))
  }

  ghost function ElementsMeaning(elements: seq<Element>, maxDigits: nat): seq<Json>
    requires ElementsOk(elements, maxDigits)
    decreases elements, 0
  {
    if elements == [] then []
    else
      assert ElementOk(elements[0], maxDigits);
      [Meaning(elements[0].node, maxDigits)] + ElementsMeaning(elements[1..], maxDigits)
  }

  ghost function EntryMeaning(e: Entry, maxDigits: nat): Member
    requires EntryOk(e, maxDigits)
    decreases e, 0
  {
    assert ElementOk(e.element, maxDigits);
    Member(CharsMeaning(e.key), Meaning(e.element.node, maxDigits))
  }

  ghost function EntriesMeaning(entries: seq<Entry>, maxDigits: nat): seq<Member>
    requires EntriesOk(entries, maxDigits)
    decreases entries, 0
  {
    if entries == [] then []
    else [EntryMeaning(entries[0], maxDigits)] + EntriesMeaning(entries[1..], maxDigits)
  }

  // ----- Strings

  /** After an escaped high surrogate no escaped low one may follow. */
  predicate NoLowNext(rest: Text) {
    |rest| >= 2 && rest[0] == BACKSLASH && rest[1] == 0x75 ==> Hex4(rest[2..]).Some? && !IsLow(Hex4(rest[2..]).value)
  }

  lemma Hex4Prefix(digits: Text, rest: Text)
    requires FourHex(digits)
    ensures Hex4(digits + rest) == Hex4(digits)
  {
    var s := digits + rest;
    assert s[0] == digits[0] && s[1] == digits[1] && s[2] == digits[2] && s[3] == digits[3];
  }

  lemma HexBack(digits: Text, rest: Text)
    requires FourHex(digits) && (IsHigh(Hex4(digits).value) ==> NoLowNext(rest))
    ensures ParsePoint(ESCAPE_U + digits + rest) == Done(Hex4(digits).value, rest)
  {
    var s := ESCAPE_U + digits + rest;
    assert s[2..] == digits + rest && s[6..] == rest;
    assert |rest| >= 2 ==> s[6] == rest[0] && s[7] == rest[1] && s[8..] == rest[2..];
    Hex4Prefix(digits, rest);
  }

  lemma PairBack(high: Text, low: Text, rest: Text)
    requires CharOk(Pair(high, low))
    ensures ParsePoint(CharText(Pair(high, low)) + rest) == Done(CharMeaning(Pair(high, low)), rest)
  {
    var s := CharText(Pair(high, low)) + rest;
    assert s[2..] == high + (ESCAPE_U + low + rest) && s[8..] == low + rest && s[12..] == rest;
    assert s[6] == ESCAPE_U[0] && s[7] == ESCAPE_U[1];
    Hex4Prefix(high, ESCAPE_U + low + rest);
    Hex4Prefix(low, rest);
  }

  lemma CharBack(ch: Char, rest: Text)
    requires CharOk(ch) && (ch.Hex? && IsHigh(Hex4(ch.digits).value) ==> NoLowNext(rest))
    ensures var s := CharText(ch) + rest; s[0] != QUOTE && ParsePoint(s) == Done(CharMeaning(ch), rest)
  {
    match ch
    case Plain(c) => assert ([c] + rest)[1..] == rest;
    case Short(letter) => assert ([BACKSLASH, letter] + rest)[2..] == rest;
    case Hex(digits) => HexBack(digits, rest);
    case Pair(high, low) => PairBack(high, low, rest);
  }

  lemma NextCharOk(a: Char, chars: seq<Char>, rest: Text)
    requires CharOk(a) && a.Hex? && IsHigh(Hex4(a.digits).value) && CharsOk(chars)
    requires chars != [] ==> Separate(a, chars[0])
    ensures NoLowNext(CharsText(chars) + [QUOTE] + rest)
  {
    hide Hex4;
    var s := CharsText(chars) + [QUOTE] + rest;
    if chars == [] {
      assert s[0] == QUOTE;
    } else {
      var tail := CharsText(chars[1..]) + [QUOTE] + rest;
      assert s == CharText(chars[0]) + tail;
      NotLow(chars[0], tail);
    }
  }

  lemma NotLow(ch: Char, tail: Text)
    requires CharOk(ch) && (ch.Hex? ==> !IsLow(Hex4(ch.digits).value))
    ensures NoLowNext(CharText(ch) + tail)
  {
    hide Hex4, NoLowNext;
    match ch
    case Plain(c) => NotEscape(CharText(ch) + tail);
    case Short(letter) => NotEscape(CharText(ch) + tail);
    case Hex(digits) => NotLowEscape(digits, tail);
    case Pair(high, low) =>
      NotLowEscape(high, ESCAPE_U + low + tail);
      assert CharText(ch) + tail == ESCAPE_U + high + (ESCAPE_U + low + tail);
  }

  lemma NotEscape(s: Text)
    requires |s| >= 2 ==> s[0] != BACKSLASH || s[1] != 0x75
    ensures NoLowNext(s)
  {
  }

  lemma NotLowEscape(digits: Text, rest: Text)
    requires FourHex(digits) && !IsLow(Hex4(digits).value)
    ensures NoLowNext(ESCAPE_U + digits + rest)
  {
    hide Hex4;
    assert (ESCAPE_U + digits + rest)[2..] == digits + rest;
    Hex4Prefix(digits, rest);
  }

  lemma {:induction false} CharsBack(chars: seq<Char>, rest: Text)
    requires CharsOk(chars)
    ensures ParseString(CharsText(chars) + [QUOTE] + rest) == Done(CharsMeaning(chars), rest)
  {
    hide ParsePoint, CharText, CharMeaning, NoLowNext, Hex4;
    var s := CharsText(chars) + [QUOTE] + rest;
    if chars == [] {
      assert s[1..] == rest;
    } else {
      var tail := CharsText(chars[1..]) + [QUOTE] + rest;
      assert s == CharText(chars[0]) + tail;
      if chars[0].Hex? && IsHigh(Hex4(chars[0].digits).value) {
        NextCharOk(chars[0], chars[1..], rest);
      }
      CharBack(chars[0], tail);
      CharsBack(chars[1..], rest);
    }
  }

  // ----- Numbers and words

  /** What may follow a number. */
  predicate Delimited(rest: Text) { rest == [] || (!Digit(rest[0]) && !FloatMark(rest[0])) }

  lemma {:induction false} SpanBack(d: Text, rest: Text)
    requires AllDigits(d) && (rest == [] || !Digit(rest[0]))
    ensures SpanDigits(d + rest) == (d, rest)
  {
    if d == [] {
      assert d + rest == rest;
    } else {
      SpanBack(d[1..], rest);
      assert d == [d[0]] + d[1..];
      assert (d + rest)[1..] == d[1..] + rest;
    }
  }

  lemma IntPartBack(d: Text, rest: Text)
    requires Delimited(rest) && AllDigits(d) && d != [] && (d[0] == 0x30 ==> |d| == 1)
    ensures IntPart(d + rest) == (d, rest)
  {
    if d[0] == 0x30 {
      assert d == [0x30] && (d + rest)[1..] == rest;
    } else {
      SpanBack(d, rest);
    }
  }

  lemma NumberBack(n: Node, rest: Text, maxDigits: nat)
    requires n.NumNode? && WellSpelled(n, maxDigits) && Delimited(rest)
    ensures ParseNumber(NodeText(n) + rest, maxDigits) == Done(Meaning(n, maxDigits), rest)
    ensures var c := (NodeText(n) + rest)[0]; c == MINUS || Digit(c)
  {
    hide IntPart, AllDigits, NumberOf, Delimited;
    DigitsBack(n.negative, n.digits, rest, maxDigits) by {
      assert AllDigits(n.digits);
    }
    assert NodeText(n) + rest == (if n.negative then [MINUS] else []) + n.digits + rest;
  }

  lemma DigitsBack(negative: bool, d: Text, rest: Text, maxDigits: nat)
    requires d != [] && AllDigits(d) && |d| <= maxDigits && (d[0] == 0x30 ==> |d| == 1) && Delimited(rest)
    ensures var s := (if negative then [MINUS] else []) + d + rest;
            && ParseNumber(s, maxDigits) == Done(Num(if negative then 0 - NumberOf(d) else NumberOf(d)), rest)
            && (s[0] == MINUS || Digit(s[0]))
  {
    var s, t := (if negative then [MINUS] else []) + d + rest, d + rest;
    IntPartBack(d, rest);
    assert t[0] == d[0] && Digit(d[0]);
    hide IntPart, NumberOf, AllDigits, Digit;
    if negative {
      assert s == [MINUS] + t;
      NegativeUnfolds(t, maxDigits);
    } else {
      assert s == t;
      PositiveUnfolds(t, maxDigits);
    }
  }

  /** What the decoder makes of a number without its sign. */
  function Unsigned(t: Text, negative: bool, maxDigits: nat): Parsed<Json>
    requires t != [] && Digit(t[0])
  {
    var (d, rest) := IntPart(t);
    if |d| > maxDigits || (rest != [] && FloatMark(rest[0])) then Fail
    else Done(Num(if negative then 0 - NumberOf(d) else NumberOf(d)), rest)
  }

  lemma NegativeUnfolds(t: Text, maxDigits: nat)
    requires t != [] && Digit(t[0])
    ensures ParseNumber([MINUS] + t, maxDigits) == Unsigned(t, true, maxDigits)
  {
    hide IntPart, NumberOf, AllDigits;
    assert ([MINUS] + t)[1..] == t;
  }

  lemma PositiveUnfolds(t: Text, maxDigits: nat)
    requires t != [] && Digit(t[0])
    ensures ParseNumber(t, maxDigits) == Unsigned(t, false, maxDigits)
  {
    hide IntPart, NumberOf, AllDigits;
  }

  lemma ScalarBack(n: Node, rest: Text, maxDigits: nat)
    requires WellSpelled(n, maxDigits) && Delimited(rest) && !n.ArrNode? && !n.ObjNode?
    ensures ParseValue(NodeText(n) + rest, maxDigits) == Done(Meaning(n, maxDigits), rest)
  {
    hide ParseArray, ParseObject, ParseString, ParseNumber, CharsText;
    var s := NodeText(n) + rest;
    match n
    case NumNode(_, _) => NumberBack(n, rest, maxDigits);
    case StrNode(chars) =>
      assert s[1..] == CharsText(chars) + [QUOTE] + rest;
      CharsBack(chars, rest);
    case _ => WordBack(n, rest, maxDigits);
  }

  lemma WordBack(n: Node, rest: Text, maxDigits: nat)
    requires n.NullNode? || n.BoolNode?
    ensures ParseValue(NodeText(n) + rest, maxDigits) == Done(Meaning(n, maxDigits), rest)
  {
    hide ParseArray, ParseObject, ParseString, ParseNumber;
    var word := NodeText(n);
    var s := word + rest;
    assert word <= s && s[|word|..] == rest;
    assert s[0] == word[0] && NULL_TEXT[0] == 0x6E && TRUE_TEXT[0] == 0x74 && FALSE_TEXT[0] == 0x66;
  }

  // ----- Containers

  lemma NodeStart(n: Node, maxDigits: nat)
    requires WellSpelled(n, maxDigits)
    ensures var s := NodeText(n); s != [] && !Space(s[0]) && s[0] != RBRACKET && s[0] != RBRACE
  {
  }

  lemma {:induction false} SkipBack(space: Text, s: Text)
    requires AllSpace(space) && (s == [] || !Space(s[0]))
    ensures SkipSpace(space + s) == s
  {
    if space == [] {
      assert space + s == s;
    } else {
      assert (space + s)[1..] == space[1..] + s;
      SkipBack(space[1..], s);
    }
  }

  lemma Opened(c: CodePoint, t: Text, maxDigits: nat)
    ensures c == LBRACKET ==> ParseValue([c] + t, maxDigits) == ParseArray(SkipSpace(t), maxDigits)
    ensures c == LBRACE ==> ParseValue([c] + t, maxDigits) == ParseObject(SkipSpace(t), maxDigits)
  {
    hide ParseArray, ParseObject, ParseString, ParseNumber, SkipSpace;
    assert ([c] + t)[1..] == t;
  }

  lemma SpaceDelimits(space: Text, rest: Text)
    requires AllSpace(space) && Delimited(rest)
    ensures Delimited(space + rest)
  {
    assert space != [] ==> (space + rest)[0] == space[0];
    assert space == [] ==> space + rest == rest;
  }

  /** The decoder reads a legal spelling as what it means, whatever follows it. */
  lemma {:induction false} NodeBack(n: Node, rest: Text, maxDigits: nat)
    requires WellSpelled(n, maxDigits) && ShapeOf(Meaning(n, maxDigits)).distinct && Delimited(rest)
    ensures ParseValue(NodeText(n) + rest, maxDigits) == Done(Meaning(n, maxDigits), rest)
    decreases n, 0
  {
    match n
    case ArrNode(space, elements) =>
      if elements != [] {
        ElementsBack(elements, rest, maxDigits);
      }
      ArrayBack(n, rest, maxDigits);
    case ObjNode(space, entries) =>
      if entries != [] {
        EntriesBack(entries, rest, maxDigits);
      }
      ObjectBack(n, rest, maxDigits);
    case _ => ScalarBack(n, rest, maxDigits);
  }

  lemma ArrayBack(n: Node, rest: Text, maxDigits: nat)
    requires n.ArrNode? && WellSpelled(n, maxDigits)
    requires n.elements != [] ==>
               var s := SkipSpace(ElementsText(n.elements) + rest);
               s != [] && s[0] != RBRACKET
               && ParseItems(s, maxDigits) == Done(ElementsMeaning(n.elements, maxDigits), rest)
    ensures ParseValue(NodeText(n) + rest, maxDigits) == Done(Meaning(n, maxDigits), rest)
  {
    hide ParseValue, ParseItems, ElementsText;
    if n.elements == [] {
      var close := [RBRACKET] + rest;
      assert NodeText(n) + rest == [LBRACKET] + (n.space + close) && close[1..] == rest;
      SkipBack(n.space, close);
      Opened(LBRACKET, n.space + close, maxDigits);
    } else {
      assert NodeText(n) + rest == [LBRACKET] + (ElementsText(n.elements) + rest);
      Opened(LBRACKET, ElementsText(n.elements) + rest, maxDigits);
    }
  }

  lemma ObjectBack(n: Node, rest: Text, maxDigits: nat)
    requires n.ObjNode? && WellSpelled(n, maxDigits) && UniqueKeys(EntriesMeaning(n.entries, maxDigits))
    requires n.entries != [] ==>
               var s := SkipSpace(EntriesText(n.entries) + rest);
               s != [] && s[0] != RBRACE
               && ParseMembers(s, maxDigits) == Done(EntriesMeaning(n.entries, maxDigits), rest)
    ensures ParseValue(NodeText(n) + rest, maxDigits) == Done(Meaning(n, maxDigits), rest)
  {
    hide ParseValue, ParseMembers, EntriesText;
    if n.entries == [] {
      var close := [RBRACE] + rest;
      assert NodeText(n) + rest == [LBRACE] + (n.space + close) && close[1..] == rest;
      SkipBack(n.space, close);
      Opened(LBRACE, n.space + close, maxDigits);
    } else {
      assert NodeText(n) + rest == [LBRACE] + (EntriesText(n.entries) + rest);
      Opened(LBRACE, EntriesText(n.entries) + rest, maxDigits);
    }
  }

  /** An element, with what follows its closing white space known to be a delimiter. */
  lemma {:induction false} ElementBack(e: Element, rest: Text, maxDigits: nat)
    requires ElementOk(e, maxDigits) && ShapeOf(Meaning(e.node, maxDigits)).distinct
    requires rest != [] && !Space(rest[0]) && Delimited(rest)
    ensures var s := SkipSpace(ElementText(e) + rest);
            && ParseValue(s, maxDigits) == Done(Meaning(e.node, maxDigits), e.after + rest)
            && SkipSpace(e.after + rest) == rest
            && s != [] && s[0] == NodeText(e.node)[0]
    decreases e, 0
  {
    hide ParseValue, NodeText, Meaning, WellSpelled;
    var s := NodeText(e.node) + (e.after + rest);
    assert ElementText(e) + rest == e.before + s;
    NodeStart(e.node, maxDigits);
    assert s[0] == NodeText(e.node)[0];
    SkipBack(e.before, s);
    SkipBack(e.after, rest);
    SpaceDelimits(e.after, rest);
    NodeBack(e.node, e.after + rest, maxDigits);
  }

  // One turn of the decoder's loops.

  lemma LastItem(s: Text, v: Json, after: Text, rest: Text, maxDigits: nat)
    requires ParseValue(s, maxDigits) == Done(v, after) && SkipSpace(after) == [RBRACKET] + rest
    ensures ParseItems(s, maxDigits) == Done([v], rest)
  {
    hide ParseValue;
    assert ([RBRACKET] + rest)[1..] == rest;
  }

  lemma NextItem(s: Text, v: Json, after: Text, u: Text, items: seq<Json>, rest: Text, maxDigits: nat)
    requires ParseValue(s, maxDigits) == Done(v, after) && SkipSpace(after) == [COMMA] + u
    requires ParseItems(SkipSpace(u), maxDigits) == Done(items, rest)
    ensures ParseItems(s, maxDigits) == Done([v] + items, rest)
  {
    hide ParseValue;
    assert ([COMMA] + u)[1..] == u;
  }

  lemma LastMember(s: Text, m: Member, after: Text, rest: Text, maxDigits: nat)
    requires ParseMember(s, maxDigits) == Done(m, after) && SkipSpace(after) == [RBRACE] + rest
    ensures ParseMembers(s, maxDigits) == Done([m], rest)
  {
    hide ParseMember;
    assert ([RBRACE] + rest)[1..] == rest;
  }

  lemma NextMember(s: Text, m: Member, after: Text, u: Text, members: seq<Member>, rest: Text, maxDigits: nat)
    requires ParseMember(s, maxDigits) == Done(m, after) && SkipSpace(after) == [COMMA] + u
    requires ParseMembers(SkipSpace(u), maxDigits) == Done(members, rest)
    ensures ParseMembers(s, maxDigits) == Done([m] + members, rest)
  {
    hide ParseMember;
    assert ([COMMA] + u)[1..] == u;
  }

  lemma OneMember(body: Text, key: Text, gap: Text, value: Text, v: Json, after: Text, maxDigits: nat)
    requires ParseString(body) == Done(key, gap) && SkipSpace(gap) == [COLON] + value
    requires ParseValue(SkipSpace(value), maxDigits) == Done(v, after)
    ensures ParseMember([QUOTE] + body, maxDigits) == Done(Member(key, v), after)
  {
    hide ParseValue, ParseString;
    assert ([QUOTE] + body)[1..] == body && ([COLON] + value)[1..] == value;
  }

  lemma {:induction false} ElementsBack(elements: seq<Element>, rest: Text, maxDigits: nat)
    requires elements != [] && ElementsOk(elements, maxDigits)
    requires ShapeOfItems(ElementsMeaning(elements, maxDigits)).distinct
    ensures var s := SkipSpace(ElementsText(elements) + rest);
            && ParseItems(s, maxDigits) == Done(ElementsMeaning(elements, maxDigits), rest)
            && s != [] && s[0] != RBRACKET
    decreases elements, 0
  {
    var e, vs := elements[0], ElementsMeaning(elements, maxDigits);
    assert ElementOk(e, maxDigits);
    assert vs[0] == Meaning(e.node, maxDigits) && vs[1..] == ElementsMeaning(elements[1..], maxDigits);
    assert ShapeOfItems(vs) == Merge(ShapeOf(vs[0]), ShapeOfItems(vs[1..]));
    NodeStart(e.node, maxDigits);
    hide ParseValue, ParseItems, ElementText, Meaning, NodeText, WellSpelled, SkipSpace, ShapeOf;
    if |elements| == 1 {
      var tail := [RBRACKET] + rest;
      assert ElementsText(elements) + rest == ElementText(e) + tail;
      ElementBack(e, tail, maxDigits);
      LastItem(SkipSpace(ElementText(e) + tail), vs[0], e.after + tail, rest, maxDigits);
      assert vs == [vs[0]];
    } else {
      var u := ElementsText(elements[1..]) + rest;
      var tail := [COMMA] + u;
      assert ElementsText(elements) + rest == ElementText(e) + tail;
      ElementBack(e, tail, maxDigits);
      ElementsBack(elements[1..], rest, maxDigits);
      NextItem(SkipSpace(ElementText(e) + tail), vs[0], e.after + tail, u, vs[1..], rest, maxDigits);
      assert vs == [vs[0]] + vs[1..];
    }
  }

  lemma EntryTextIs(e: Entry, rest: Text)
    ensures EntryText(e) + rest
         == e.before + ([QUOTE] + (CharsText(e.key) + [QUOTE] + (e.gap + ([COLON] + (ElementText(e.element) + rest)))))
  {
    hide CharsText, ElementText;
  }

  lemma {:induction false} EntryBack(e: Entry, rest: Text, maxDigits: nat)
    requires EntryOk(e, maxDigits) && ShapeOfMember(EntryMeaning(e, maxDigits)).distinct
    requires rest != [] && !Space(rest[0]) && Delimited(rest)
    ensures var s := SkipSpace(EntryText(e) + rest);
            && ParseMember(s, maxDigits) == Done(EntryMeaning(e, maxDigits), e.element.after + rest)
            && SkipSpace(e.element.after + rest) == rest
            && s != [] && s[0] == QUOTE
    decreases e, 0
  {
    assert ElementOk(e.element, maxDigits);
    hide ParseValue, ParseMember, NodeText, Meaning, WellSpelled, ElementText, ElementOk;
    hide CharsText, ParseString, CharsOk, CharsMeaning, ShapeOf;
    var value := ElementText(e.element) + rest;
    var colon := [COLON] + value;
    var body := CharsText(e.key) + [QUOTE] + (e.gap + colon);
    EntryTextIs(e, rest);
    hide EntryText;
    SkipBack(e.before, [QUOTE] + body);
    CharsBack(e.key, e.gap + colon);
    SkipBack(e.gap, colon);
    ElementBack(e.element, rest, maxDigits);
    OneMember(body, CharsMeaning(e.key), e.gap + colon, value, Meaning(e.element.node, maxDigits),
              e.element.after + rest, maxDigits);
  }

  lemma {:induction false} EntriesBack(entries: seq<Entry>, rest: Text, maxDigits: nat)
    requires entries != [] && EntriesOk(entries, maxDigits)
    requires ShapeOfMembers(EntriesMeaning(entries, maxDigits)).distinct
    ensures var s := SkipSpace(EntriesText(entries) + rest);
            && ParseMembers(s, maxDigits) == Done(EntriesMeaning(entries, maxDigits), rest)
            && s != [] && s[0] != RBRACE
    decreases entries, 0
  {
    var e, ms := entries[0], EntriesMeaning(entries, maxDigits);
    assert EntryOk(e, maxDigits);
    assert ms[0] == EntryMeaning(e, maxDigits) && ms[1..] == EntriesMeaning(entries[1..], maxDigits);
    assert ShapeOfMembers(ms) == Merge(ShapeOfMember(ms[0]), ShapeOfMembers(ms[1..]));
    hide ParseMember, ParseMembers, EntryText, EntryMeaning, EntryOk, SkipSpace, ShapeOfMember;
    if |entries| == 1 {
      var tail := [RBRACE] + rest;
      assert EntriesText(entries) + rest == EntryText(e) + tail;
      EntryBack(e, tail, maxDigits);
      LastMember(SkipSpace(EntryText(e) + tail), ms[0], e.element.after + tail, rest, maxDigits);
      assert ms == [ms[0]];
    } else {
      var u := EntriesText(entries[1..]) + rest;
      var tail := [COMMA] + u;
      assert EntriesText(entries) + rest == EntryText(e) + tail;
      EntryBack(e, tail, maxDigits);
      EntriesBack(entries[1..], rest, maxDigits);
      NextMember(SkipSpace(EntryText(e) + tail), ms[0], e.element.after + tail, u, ms[1..], rest, maxDigits);
      assert ms == [ms[0]] + ms[1..];
    }
  }

  /** Every legal spelling of a document without repeated keys decodes to what it spells. */
  lemma SpellingDecodes(e: Element, maxDigits: nat)
    requires ElementOk(e, maxDigits) && ShapeOf(Meaning(e.node, maxDigits)).distinct
    ensures Loads(ElementText(e), maxDigits) == Some(Meaning(e.node, maxDigits))
  {
    hide ParseValue, NodeText, Meaning, WellSpelled;
    var s := NodeText(e.node) + e.after;
    assert ElementText(e) == e.before + s;
    NodeStart(e.node, maxDigits);
    SkipBack(e.before, s);
    SkipBack(e.after, []);
    assert e.after + [] == e.after;
    SpaceDelimits(e.after, []);
    NodeBack(e.node, e.after, maxDigits);
  }

  // ----- The canonical spelling

  function CanonicalChar(c: CodePoint): Char {
    if c == QUOTE || c == BACKSLASH then Short(c)
    else if c == 0x08 then Short(0x62)
    else if c == 0x0C then Short(0x66)
    else if c == 0x0A then Short(0x6E)
    else if c == 0x0D then Short(0x72)
    else if c == 0x09 then Short(0x74)
    else if c < 0x20 then Hex([0x30, 0x30, HexDigit(c / 16), HexDigit(c % 16)])
    else Plain(c)
  }

  function CanonicalChars(s: Text): seq<Char> {
    if s == [] then [] else [CanonicalChar(s[0])] + CanonicalChars(s[1..])
  }

  function CanonicalNode(v: Json): Node
    decreases v, 0
  {
    match v
    case Null => NullNode
    case Bool(b) => BoolNode(b)
    case Num(n) => NumNode(n < 0, Digits(Magnitude(n)))
    case Str(s) => StrNode(CanonicalChars(s))
    case Arr(items) => ArrNode([], CanonicalElements(items))
    case Obj(members) => ObjNode([], CanonicalEntries(members))
  }

  function CanonicalElements(items: seq<Json>): (r: seq<Element>)
    ensures |r| == |items|
    decreases items, 0
  {
    if items == [] then [] else [Element([], CanonicalNode(items[0]), [])] + CanonicalElements(items[1..])
  }

  function CanonicalEntry(m: Member): Entry
    decreases m, 0
  {
    Entry([], CanonicalChars(m.key), [], Element([], CanonicalNode(m.value), []))
  }

  function CanonicalEntries(members: seq<Member>): (r: seq<Entry>)
    ensures |r| == |members|
    decreases members, 0
  {
    if members == [] then [] else [CanonicalEntry(members[0])] + CanonicalEntries(members[1..])
  }

  lemma CanonicalCharSpells(c: CodePoint)
    ensures var ch := CanonicalChar(c);
            && CharText(ch) == EscapePoint(c) && CharOk(ch) && CharMeaning(ch) == c
            && (ch.Hex? ==> !IsHigh(Hex4(ch.digits).value))
  {
    if CanonicalChar(c).Hex? {
      assert Hex4(CanonicalChar(c).digits) == Some(c);
    }
  }

  lemma ConsChar(first: Char, rest: seq<Char>)
    requires CharOk(first) && CharsOk(rest) && (first.Hex? ==> !IsHigh(Hex4(first.digits).value))
    ensures CharsOk([first] + rest)
    ensures CharsText([first] + rest) == CharText(first) + CharsText(rest)
    ensures CharsMeaning([first] + rest) == [CharMeaning(first)] + CharsMeaning(rest)
  {
    var chars := [first] + rest;
    assert chars[1..] == rest && chars[0] == first;
    assert forall i :: 0 <= i < |rest| ==> chars[i+1] == rest[i];
  }

  lemma {:induction false} CanonicalCharsSpell(s: Text)
    ensures var chars := CanonicalChars(s);
            && CharsOk(chars) && CharsText(chars) == Escape(s) && CharsMeaning(chars) == s
            && forall i :: 0 <= i < |chars| && chars[i].Hex? ==> !IsHigh(Hex4(chars[i].digits).value)
  {
    if s != [] {
      var first, rest := CanonicalChar(s[0]), CanonicalChars(s[1..]);
      CanonicalCharsSpell(s[1..]);
      CanonicalCharSpells(s[0]);
      hide EscapePoint, CanonicalChar, CharText, CharOk, CharMeaning, CharsOk, CharsText, CharsMeaning, Hex4, IsHigh;
      ConsChar(first, rest);
      assert CanonicalChars(s) == [first] + rest;
      assert s == [s[0]] + s[1..];
    }
  }

  /** The canonical text is the canonical spelling's. */
  lemma {:induction false} CanonicalSpells(v: Json, maxDigits: nat)
    requires WellParsed(ShapeOf(v), maxDigits)
    ensures var n := CanonicalNode(v);
            NodeText(n) == Render(v) && WellSpelled(n, maxDigits) && Meaning(n, maxDigits) == v
    decreases v, 0
  {
    match v
    case Num(n) =>
      DigitsOf(Magnitude(n));
      if Digits(Magnitude(n))[0] == 0x30 {
        assert |Digits(0)| == 1;
      }
    case Str(s) => CanonicalCharsSpell(s);
    case Arr(items) => CanonicalElementsSpell(items, maxDigits);
    case Obj(members) => CanonicalEntriesSpell(members, maxDigits);
    case _ =>
  }

  lemma {:induction false} CanonicalElementsSpell(items: seq<Json>, maxDigits: nat)
    requires WellParsed(ShapeOfItems(items), maxDigits)
    ensures var es := CanonicalElements(items);
            && ElementsOk(es, maxDigits) && ElementsMeaning(es, maxDigits) == items
            && (items != [] ==> ElementsText(es) == RenderItems(items))
    decreases items, 0
  {
    if items != [] {
      CanonicalSpells(items[0], maxDigits);
      CanonicalElementsSpell(items[1..], maxDigits);
      hide NodeText, Render, WellSpelled, Meaning, ShapeOf;
      var es := CanonicalElements(items);
      assert es[1..] == CanonicalElements(items[1..]);
      assert [] + Render(items[0]) + [] == Render(items[0]);
      assert items == [items[0]] + items[1..];
    }
  }

  lemma {:induction false} CanonicalEntriesSpell(members: seq<Member>, maxDigits: nat)
    requires WellParsed(ShapeOfMembers(members), maxDigits)
    ensures var es := CanonicalEntries(members);
            && EntriesOk(es, maxDigits) && EntriesMeaning(es, maxDigits) == members
            && (members != [] ==> EntriesText(es) == RenderMembers(members))
    decreases members, 0
  {
    if members != [] {
      var m := members[0];
      CanonicalEntrySpells(m, maxDigits);
      CanonicalEntriesSpell(members[1..], maxDigits);
      hide EntryText, EntryOk, EntryMeaning, Render, ShapeOf, CanonicalEntry, Quoted;
      assert CanonicalEntries(members)[1..] == CanonicalEntries(members[1..]);
      assert members == [m] + members[1..];
    }
  }

  lemma {:induction false} CanonicalEntrySpells(m: Member, maxDigits: nat)
    requires WellParsed(ShapeOfMember(m), maxDigits)
    ensures var e := CanonicalEntry(m);
            && EntryOk(e, maxDigits) && EntryMeaning(e, maxDigits) == m
            && EntryText(e) == Quoted(m.key) + [COLON] + Render(m.value)
    decreases m, 0
  {
    CanonicalCharsSpell(m.key);
    CanonicalSpells(m.value, maxDigits);
    hide NodeText, Render, WellSpelled, Meaning, ShapeOf, CharsText, Escape, CharsOk, CharsMeaning, CanonicalChars;
    hide CanonicalNode, EntryText;
    BareEntry(CanonicalEntry(m));
  }

  lemma BareEntry(e: Entry)
    requires e.before == [] && e.gap == [] && e.element.before == [] && e.element.after == []
    ensures EntryText(e) == [QUOTE] + CharsText(e.key) + [QUOTE] + [COLON] + NodeText(e.element.node)
  {
    hide NodeText, CharsText;
    BareElement(e.element);
  }

  lemma BareElement(e: Element)
    requires e.before == []
    ensures ElementText(e) == NodeText(e.node) + e.after
  {
  }

  lemma LoadsCanonical(v: Json, maxDigits: nat)
    requires WellParsed(ShapeOf(v), maxDigits)
    ensures Loads(CanonicalText(v), maxDigits) == Some(SortKeys(v))
  {
    SortKeysShape(v);
    CanonicalSpells(SortKeys(v), maxDigits);
    hide SortKeys, CanonicalNode, Render, NodeText, ElementText, WellSpelled, Meaning, ShapeOf, Loads;
    var e := Element([], CanonicalNode(SortKeys(v)), [NEWLINE]);
    BareElement(e);
    SpellingDecodes(e, maxDigits);
  }

  // ----- The canonical text is a shortest spelling

  lemma PointShortest(ch: Char)
    requires CharOk(ch)
    ensures |EscapePoint(CharMeaning(ch))| <= |CharText(ch)|
  {
    hide Hex4;
  }

  /** A control character without a short escape is written in lower-case hexadecimal. */
  lemma ControlEscape(c: CodePoint)
    requires c < 0x20 && c !in [0x08, 0x09, 0x0A, 0x0C, 0x0D]
    ensures var e := EscapePoint(c);
            && |e| == 6 && e[..2] == ESCAPE_U && Hex4(e[2..]) == Some(c)
            && forall i :: 2 <= i < 6 ==> 0x30 <= e[i] <= 0x39 || 0x61 <= e[i] <= 0x66
  {
    CanonicalCharSpells(c);
    var e := EscapePoint(c);
    assert e[2..] == [0x30, 0x30, HexDigit(c / 16), HexDigit(c % 16)];
  }

  lemma {:induction false} CharsShortest(chars: seq<Char>)
    requires CharsOk(chars)
    ensures |Escape(CharsMeaning(chars))| <= |CharsText(chars)|
  {
    if chars != [] {
      PointShortest(chars[0]);
      CharsShortest(chars[1..]);
      assert CharsMeaning(chars)[1..] == CharsMeaning(chars[1..]);
      hide EscapePoint, CharText, CharMeaning, CharOk;
    }
  }

  /** No legal spelling of a value is shorter than the compact text with its members in the same order: no
      white space, no digit, no escape too many. */
  lemma {:induction false} RenderShortest(n: Node, maxDigits: nat)
    requires WellSpelled(n, maxDigits)
    ensures |Render(Meaning(n, maxDigits))| <= |NodeText(n)|
    decreases n, 0
  {
    match n
    case NumNode(negative, digits) => DigitsShortest(digits);
    case StrNode(chars) => CharsShortest(chars);
    case ArrNode(_, elements) => ElementsShortest(elements, maxDigits);
    case ObjNode(_, entries) => EntriesShortest(entries, maxDigits);
    case _ =>
  }

  lemma {:induction false} ElementsShortest(elements: seq<Element>, maxDigits: nat)
    requires ElementsOk(elements, maxDigits)
    ensures |ElementsMeaning(elements, maxDigits)| == |elements|
    ensures elements != [] ==> |RenderItems(ElementsMeaning(elements, maxDigits))| <= |ElementsText(elements)|
    decreases elements, 0
  {
    if elements != [] {
      var e := elements[0];
      assert ElementOk(e, maxDigits);
      RenderShortest(e.node, maxDigits);
      ElementsShortest(elements[1..], maxDigits);
      var items := ElementsMeaning(elements, maxDigits);
      assert items[1..] == ElementsMeaning(elements[1..], maxDigits);
      hide NodeText, Render, WellSpelled, Meaning;
    }
  }

  lemma {:induction false} EntriesShortest(entries: seq<Entry>, maxDigits: nat)
    requires EntriesOk(entries, maxDigits)
    ensures |EntriesMeaning(entries, maxDigits)| == |entries|
    ensures entries != [] ==> |RenderMembers(EntriesMeaning(entries, maxDigits))| <= |EntriesText(entries)|
    decreases entries, 0
  {
    if entries != [] {
      EntryShortest(entries[0], maxDigits);
      EntriesShortest(entries[1..], maxDigits);
      var members := EntriesMeaning(entries, maxDigits);
      assert members[1..] == EntriesMeaning(entries[1..], maxDigits);
      hide EntryText, EntryMeaning, EntryOk, Quoted, Render;
    }
  }

  lemma {:induction false} EntryShortest(e: Entry, maxDigits: nat)
    requires EntryOk(e, maxDigits)
    ensures var m := EntryMeaning(e, maxDigits); |Quoted(m.key)| + 1 + |Render(m.value)| <= |EntryText(e)|
    decreases e, 0
  {
    assert ElementOk(e.element, maxDigits);
    RenderShortest(e.element.node, maxDigits);
    CharsShortest(e.key);
    hide NodeText, Render, WellSpelled, Meaning, CharsText, Escape, CharsMeaning, CharsOk;
  }
}
