/** The decoder accepts nothing but the spellings of RFC 8259: whatever it reads, the text it consumed is a
    legal spelling of the value it returns. */
module JsonSpelled {
  import opened Wrappers
  import opened Utf8
  import opened Json
  import opened JsonDecoder
  import opened JsonGrammar

  lemma {:induction false} SpacePrefix(s: Text) returns (space: Text)
    ensures AllSpace(space) && s == space + SkipSpace(s)
  {
    if s != [] && Space(s[0]) {
      space := SpacePrefix(s[1..]);
      space := [s[0]] + space;
    } else {
      space := [];
    }
  }

  // ----- Strings

  lemma SpellsPoint(s: Text) returns (ch: Char)
    requires s != [] && s[0] != QUOTE && ParsePoint(s).Done?
    ensures CharOk(ch) && CharMeaning(ch) == ParsePoint(s).value && s == CharText(ch) + ParsePoint(s).rest
    ensures ch.Hex? && IsHigh(Hex4(ch.digits).value) ==> NoLowNext(ParsePoint(s).rest)
  {
    if s[0] != BACKSLASH {
      ch := Plain(s[0]);
    } else if s[1] != 0x75 {
      ch := Short(s[1]);
    } else {
      ch := SpellsUnicode(s);
    }
  }

  lemma SpellsUnicode(s: Text) returns (ch: Char)
    requires |s| >= 2 && s[0] == BACKSLASH && s[1] == 0x75 && ParsePoint(s).Done?
    ensures CharOk(ch) && CharMeaning(ch) == ParsePoint(s).value && s == CharText(ch) + ParsePoint(s).rest
    ensures ch.Hex? && IsHigh(Hex4(ch.digits).value) ==> NoLowNext(ParsePoint(s).rest)
  {
    var high, rest := s[2..6], s[6..];
    FourOf(s, 2);
    assert s == ESCAPE_U + high + rest;
    if ParsePoint(s).rest == rest {
      ch := Hex(high);
      assert |s| >= 8 ==> rest[2..] == s[8..] && rest[0] == s[6] && rest[1] == s[7];
      hide Hex4;
    } else {
      FourOf(s, 8);
      ch := Pair(high, s[8..12]);
      assert s == ESCAPE_U + high + ESCAPE_U + s[8..12] + s[12..];
      hide Hex4;
    }
  }

  lemma FourOf(s: Text, i: nat)
    requires i <= |s|
    ensures Hex4(s[i..]).Some? ==> i + 4 <= |s| && FourHex(s[i..i+4]) && Hex4(s[i..i+4]) == Hex4(s[i..])
  {
    if Hex4(s[i..]).Some? {
      var digits := s[i..i+4];
      assert digits[0] == s[i..][0] && digits[1] == s[i..][1] && digits[2] == s[i..][2] && digits[3] == s[i..][3];
    }
  }

  lemma SeparateNext(ch: Char, chars: seq<Char>, tail: Text)
    requires CharOk(ch) && chars != [] && CharsOk(chars)
    requires ch.Hex? && IsHigh(Hex4(ch.digits).value) ==> NoLowNext(CharsText(chars) + tail)
    ensures Separate(ch, chars[0])
  {
    if ch.Hex? && chars[0].Hex? {
      var digits, rest := chars[0].digits, CharsText(chars[1..]) + tail;
      AfterEscape(digits, rest);
      hide Hex4;
      assert CharsText(chars) == ESCAPE_U + digits + CharsText(chars[1..]);
      Reassociate(ESCAPE_U + digits, CharsText(chars[1..]), tail);
    }
  }

  lemma AfterEscape(digits: Text, rest: Text)
    requires FourHex(digits)
    ensures var s := ESCAPE_U + digits + rest;
            s[0] == BACKSLASH && s[1] == 0x75 && Hex4(s[2..]) == Hex4(digits)
  {
    Hex4Prefix(digits, rest);
    hide Hex4;
    assert (ESCAPE_U + digits + rest)[2..] == digits + rest;
  }

  lemma ConsSpelled(ch: Char, chars: seq<Char>)
    requires CharOk(ch) && CharsOk(chars) && (chars != [] ==> Separate(ch, chars[0]))
    ensures CharsOk([ch] + chars)
    ensures CharsMeaning([ch] + chars) == [CharMeaning(ch)] + CharsMeaning(chars)
    ensures CharsText([ch] + chars) == CharText(ch) + CharsText(chars)
  {
    hide Hex4, CharOk, CharMeaning, CharText, Separate;
    var all := [ch] + chars;
    assert all[1..] == chars && all[0] == ch;
    assert forall i :: 0 <= i < |chars| ==> all[i+1] == chars[i];
  }

  lemma {:induction false} SpellsString(s: Text) returns (chars: seq<Char>)
    requires ParseString(s).Done?
    ensures CharsOk(chars) && CharsMeaning(chars) == ParseString(s).value
    ensures s == CharsText(chars) + [QUOTE] + ParseString(s).rest
    decreases |s|
  {
    if s[0] == QUOTE {
      chars := [];
      assert s == [QUOTE] + s[1..];
    } else {
      hide ParsePoint, CharOk, CharMeaning, CharText, NoLowNext, CharsOk, CharsMeaning, CharsText, Separate, Hex4;
      var ch := SpellsPoint(s);
      var rest := ParsePoint(s).rest;
      var more := SpellsString(rest);
      var tail := [QUOTE] + ParseString(rest).rest;
      Reassociate(CharsText(more), [QUOTE], ParseString(rest).rest);
      if more != [] {
        SeparateNext(ch, more, tail);
      }
      ConsSpelled(ch, more);
      chars := [ch] + more;
      Reassociate(CharText(ch), CharsText(more), tail);
      Reassociate(CharsText(chars), [QUOTE], ParseString(rest).rest);
    }
  }

  lemma Reassociate(a: Text, b: Text, c: Text)
    ensures (a + b) + c == a + (b + c)
  {
  }

  // ----- Numbers and words

  lemma SpellsNumber(s: Text, maxDigits: nat) returns (n: Node)
    requires ParseNumber(s, maxDigits).Done?
    ensures WellSpelled(n, maxDigits) && Meaning(n, maxDigits) == ParseNumber(s, maxDigits).value
    ensures s == NodeText(n) + ParseNumber(s, maxDigits).rest
  {
    var negative := s[0] == MINUS;
    var t := if negative then s[1..] else s;
    StartsWithDigit(s, maxDigits);
    hide ParseNumber;
    if negative {
      assert s == [MINUS] + t;
      NegativeUnfolds(t, maxDigits);
    } else {
      PositiveUnfolds(t, maxDigits);
    }
    hide Unsigned, NumberOf, Digit;
    n := NumNode(negative, IntPart(t).0);
    UnsignedSpelled(t, negative, maxDigits);
    hide IntPart, NodeText, WellSpelled, Meaning;
    SpelledNumber(n, s, t, IntPart(t).1);
  }

  lemma UnsignedSpelled(t: Text, negative: bool, maxDigits: nat)
    requires t != [] && Digit(t[0]) && Unsigned(t, negative, maxDigits).Done?
    ensures var n := NumNode(negative, IntPart(t).0);
            && WellSpelled(n, maxDigits)
            && Unsigned(t, negative, maxDigits) == Done(Meaning(n, maxDigits), IntPart(t).1)
  {
    LeadingZero(t);
    hide IntPart, AllDigits, NumberOf, Digit, FloatMark;
  }

  lemma SpelledNumber(n: Node, s: Text, t: Text, rest: Text)
    requires n.NumNode? && t == n.digits + rest && s != [] && n.negative == (s[0] == MINUS)
    requires t == if n.negative then s[1..] else s
    ensures s == NodeText(n) + rest
  {
  }

  lemma StartsWithDigit(s: Text, maxDigits: nat)
    requires ParseNumber(s, maxDigits).Done?
    ensures s != []
    ensures var t := if s[0] == MINUS then s[1..] else s; t != [] && Digit(t[0])
  {
    hide IntPart;
  }

  lemma LeadingZero(t: Text)
    requires t != [] && Digit(t[0])
    ensures IntPart(t).0[0] == 0x30 ==> |IntPart(t).0| == 1
  {
    var d := IntPart(t).0;
    assert d[0] == (d + IntPart(t).1)[0] == t[0];
  }

  lemma SpellsScalar(s: Text, maxDigits: nat) returns (n: Node)
    requires ParseValue(s, maxDigits).Done? && s[0] != LBRACKET && s[0] != LBRACE
    ensures WellSpelled(n, maxDigits) && Meaning(n, maxDigits) == ParseValue(s, maxDigits).value
    ensures s == NodeText(n) + ParseValue(s, maxDigits).rest
  {
    hide ParseString, ParseNumber, CharsText, CharsOk, CharsMeaning;
    if s[0] == QUOTE {
      var chars := SpellsString(s[1..]);
      n := StrNode(chars);
      assert s == [QUOTE] + s[1..];
    } else if NULL_TEXT <= s {
      n := NullNode;
    } else if TRUE_TEXT <= s {
      n := BoolNode(true);
    } else if FALSE_TEXT <= s {
      n := BoolNode(false);
    } else {
      n := SpellsNumber(s, maxDigits);
    }
  }

  // ----- Containers

  lemma {:induction false} SpellsValue(s: Text, maxDigits: nat) returns (n: Node)
    requires ParseValue(s, maxDigits).Done?
    ensures WellSpelled(n, maxDigits) && Meaning(n, maxDigits) == ParseValue(s, maxDigits).value
    ensures s == NodeText(n) + ParseValue(s, maxDigits).rest
    decreases |s|, 0
  {
    if s[0] == LBRACKET {
      n := SpellsArray(s, maxDigits);
    } else if s[0] == LBRACE {
      n := SpellsObject(s, maxDigits);
    } else {
      n := SpellsScalar(s, maxDigits);
    }
  }

  lemma {:induction false} SpellsArray(s: Text, maxDigits: nat) returns (n: Node)
    requires s != [] && s[0] == LBRACKET && ParseArray(SkipSpace(s[1..]), maxDigits).Done?
    ensures var p := ParseArray(SkipSpace(s[1..]), maxDigits);
            WellSpelled(n, maxDigits) && Meaning(n, maxDigits) == p.value && s == NodeText(n) + p.rest
    decreases |s|, -1
  {
    hide ParseItems, SkipSpace;
    var t := SkipSpace(s[1..]);
    var space := SpacePrefix(s[1..]);
    assert s == [LBRACKET] + (space + t);
    if t != [] && t[0] == RBRACKET {
      n := ArrNode(space, []);
      assert space + t == space + [RBRACKET] + t[1..];
    } else {
      var elements := SpellsItems(space, t, maxDigits);
      n := ArrNode([], elements);
    }
  }

  lemma {:induction false} SpellsObject(s: Text, maxDigits: nat) returns (n: Node)
    requires s != [] && s[0] == LBRACE && ParseObject(SkipSpace(s[1..]), maxDigits).Done?
    ensures var p := ParseObject(SkipSpace(s[1..]), maxDigits);
            WellSpelled(n, maxDigits) && Meaning(n, maxDigits) == p.value && s == NodeText(n) + p.rest
    decreases |s|, -1
  {
    hide ParseMembers, SkipSpace;
    var t := SkipSpace(s[1..]);
    var space := SpacePrefix(s[1..]);
    assert s == [LBRACE] + (space + t);
    if t != [] && t[0] == RBRACE {
      n := ObjNode(space, []);
      assert space + t == space + [RBRACE] + t[1..];
    } else {
      var entries := SpellsMembers(space, t, maxDigits);
      n := ObjNode([], entries);
    }
  }

  /** Elements through the closing bracket, the white space before the first being given. */
  lemma {:induction false} SpellsItems(before: Text, s: Text, maxDigits: nat) returns (elements: seq<Element>)
    requires AllSpace(before) && ParseItems(s, maxDigits).Done?
    ensures elements != [] && ElementsOk(elements, maxDigits)
    ensures ElementsMeaning(elements, maxDigits) == ParseItems(s, maxDigits).value
    ensures before + s == ElementsText(elements) + ParseItems(s, maxDigits).rest
    decreases |s|, 1
  {
    hide ParseValue, SkipSpace, NodeText, WellSpelled, Meaning;
    var n := SpellsValue(s, maxDigits);
    var rest := ParseValue(s, maxDigits).rest;
    var after := SpacePrefix(rest);
    var t := SkipSpace(rest);
    var e := Element(before, n, after);
    SpelledElement(e, s, rest, t, maxDigits);
    if t[0] == RBRACKET {
      elements := [e];
      assert t == [RBRACKET] + t[1..];
    } else {
      var space := SpacePrefix(t[1..]);
      var more := SpellsItems(space, SkipSpace(t[1..]), maxDigits);
      elements := [e] + more;
      assert elements[1..] == more && t == [COMMA] + (space + SkipSpace(t[1..]));
    }
    hide ElementText;
  }

  lemma SpelledElement(e: Element, s: Text, rest: Text, t: Text, maxDigits: nat)
    requires AllSpace(e.before) && AllSpace(e.after) && WellSpelled(e.node, maxDigits)
    requires s == NodeText(e.node) + rest && rest == e.after + t
    ensures ElementOk(e, maxDigits) && e.before + s == ElementText(e) + t
  {
    hide NodeText, WellSpelled, AllSpace;
  }

  /** A member, the white space before it and after it being given. */
  lemma {:induction false} SpellsMember(before: Text, s: Text, after: Text, maxDigits: nat) returns (e: Entry)
    requires AllSpace(before) && AllSpace(after) && ParseMember(s, maxDigits).Done?
    requires after <= ParseMember(s, maxDigits).rest
    ensures EntryOk(e, maxDigits) && EntryMeaning(e, maxDigits) == ParseMember(s, maxDigits).value
    ensures before + s == EntryText(e) + ParseMember(s, maxDigits).rest[|after|..]
    decreases |s|, 1
  {
    hide ParseValue, ParseString, SkipSpace, NodeText, WellSpelled, Meaning, CharsText, CharsOk, CharsMeaning;
    var key := SpellsString(s[1..]);
    var rest := ParseString(s[1..]).rest;
    var gap := SpacePrefix(rest);
    var t := SkipSpace(rest);
    var space := SpacePrefix(t[1..]);
    var u := SkipSpace(t[1..]);
    var n := SpellsValue(u, maxDigits);
    var last := ParseValue(u, maxDigits).rest;
    var inner := Element(space, n, after);
    assert last == after + last[|after|..];
    SpelledElement(inner, u, last, last[|after|..], maxDigits);
    e := Entry(before, key, gap, inner);
    SpelledEntry(e, s, rest, t, space + u, last[|after|..]);
    hide ElementText, EntryText, ElementOk;
  }

  lemma SpelledEntry(e: Entry, s: Text, rest: Text, t: Text, value: Text, tail: Text)
    requires s != [] && s[0] == QUOTE && s[1..] == CharsText(e.key) + [QUOTE] + rest && rest == e.gap + t
    requires t != [] && t[0] == COLON && t[1..] == value && value == ElementText(e.element) + tail
    ensures e.before + s == EntryText(e) + tail
  {
    hide ElementText, CharsText;
    assert s == [QUOTE] + s[1..] && t == [COLON] + value;
  }

  lemma {:induction false} SpellsMembers(before: Text, s: Text, maxDigits: nat) returns (entries: seq<Entry>)
    requires AllSpace(before) && ParseMembers(s, maxDigits).Done?
    ensures entries != [] && EntriesOk(entries, maxDigits)
    ensures EntriesMeaning(entries, maxDigits) == ParseMembers(s, maxDigits).value
    ensures before + s == EntriesText(entries) + ParseMembers(s, maxDigits).rest
    decreases |s|, 2
  {
    hide ParseMember, SkipSpace, EntryText, EntryOk, EntryMeaning;
    var rest := ParseMember(s, maxDigits).rest;
    var after := SpacePrefix(rest);
    var t := SkipSpace(rest);
    var e := SpellsMember(before, s, after, maxDigits);
    assert rest[|after|..] == t;
    if t[0] == RBRACE {
      entries := [e];
      assert t == [RBRACE] + t[1..];
    } else {
      var space := SpacePrefix(t[1..]);
      var more := SpellsMembers(space, SkipSpace(t[1..]), maxDigits);
      entries := [e] + more;
      assert entries[1..] == more && t == [COMMA] + (space + SkipSpace(t[1..]));
    }
  }

  // ----- The decoder and the grammar agree

  ghost predicate Spells(e: Element, text: Text, v: Json, maxDigits: nat) {
    ElementOk(e, maxDigits) && ElementText(e) == text && Meaning(e.node, maxDigits) == v
  }

  /** The decoder returns a value exactly on the legal spellings of it, and only values with unique keys. */
  lemma LoadsExactly(text: Text, v: Json, maxDigits: nat)
    ensures Loads(text, maxDigits) == Some(v)
       <==> ShapeOf(v).distinct && exists e :: Spells(e, text, v, maxDigits)
  {
    hide ParseValue, NodeText, Meaning, WellSpelled, SkipSpace, ShapeOf;
    if Loads(text, maxDigits) == Some(v) {
      var s := SkipSpace(text);
      var before := SpacePrefix(text);
      var n := SpellsValue(s, maxDigits);
      var rest := ParseValue(s, maxDigits).rest;
      var after := SpacePrefix(rest);
      ParseValueWellFormed(s, maxDigits);
      SpelledElement(Element(before, n, after), s, rest, [], maxDigits);
      assert ElementText(Element(before, n, after)) + [] == ElementText(Element(before, n, after));
      assert Spells(Element(before, n, after), text, v, maxDigits);
    }
    if ShapeOf(v).distinct && exists e :: Spells(e, text, v, maxDigits) {
      var e :| Spells(e, text, v, maxDigits);
      hide Loads;
      SpellingDecodes(e, maxDigits);
    }
  }
}
