/** `json.loads` with the hooks of `parse_canonical_json` (RFC 8259, sections 2, 6 and 7): any legal
    white space and any legal escapes; repeated keys, NaN and Infinity are refused, and so are
    integers over `maxDigits` digits.  A number with a fraction or an exponent is refused as well,
    since floats are outside the model. */
module JsonDecoder {
  import opened Wrappers
  import opened Utf8
  import opened Json

  datatype Parsed<+T> = Fail | Done(value: T, rest: Text)

  predicate Space(c: CodePoint) { c == 0x20 || c == 0x09 || c == 0x0A || c == 0x0D }

  predicate Digit(c: CodePoint) { 0x30 <= c <= 0x39 }

  function SkipSpace(s: Text): (r: Text)
    ensures |r| <= |s|
    ensures r != [] ==> !Space(r[0])
  {
    if s != [] && Space(s[0]) then SkipSpace(s[1..]) else s
  }

  // ----- Numbers

  predicate AllDigits(s: Text) { forall i :: 0 <= i < |s| ==> Digit(s[i]) }

  function SpanDigits(s: Text): (r: (Text, Text))
    ensures r.0 + r.1 == s && AllDigits(r.0)
  {
    if s == [] || !Digit(s[0]) then ([], s)
    else
      var (d, rest) := SpanDigits(s[1..]);
      ([s[0]] + d, rest)
  }

  function NumberOf(d: Text): nat
    requires AllDigits(d)
  {
    if d == [] then 0 else NumberOf(d[..|d|-1]) * 10 + (d[|d|-1] - 0x30)
  }

  predicate FloatMark(c: CodePoint) { c == 0x2E || c == 0x65 || c == 0x45 }

  /** The integer part: a lone zero, or digits that do not start with one. */
  function IntPart(t: Text): (r: (Text, Text))
    requires t != [] && Digit(t[0])
    ensures r.0 + r.1 == t && r.0 != [] && AllDigits(r.0)
  {
    if t[0] == 0x30 then ([t[0]], t[1..]) else SpanDigits(t)
  }

  function ParseNumber(s: Text, maxDigits: nat): (r: Parsed<Json>)
    ensures r.Done? ==> |r.rest| < |s|
  {
    var negative := s != [] && s[0] == MINUS;
    var t := if negative then s[1..] else s;
    if t == [] || !Digit(t[0]) then Fail
    else
      var (d, rest) := IntPart(t);
      if |d| > maxDigits || (rest != [] && FloatMark(rest[0])) then Fail
      else
        assert |d| + |rest| == |t|;
        Done(Num(if negative then 0 - NumberOf(d) else NumberOf(d)), rest)
  }

  // ----- Strings

  function HexValue(c: CodePoint): (r: Option<nat>)
    ensures r.Some? ==> r.value < 16 && c != QUOTE && c != BACKSLASH && c < 0x80
  {
    if Digit(c) then Some(c - 0x30)
    else if 0x61 <= c <= 0x66 then Some(c - 0x61 + 10)
    else if 0x41 <= c <= 0x46 then Some(c - 0x41 + 10)
    else None
  }

  function Hex4(s: Text): (r: Option<nat>)
    ensures r.Some? ==> |s| >= 4 && r.value < 0x10000
    ensures r.Some? ==> forall i :: 0 <= i < 4 ==> HexValue(s[i]).Some?
  {
    if |s| < 4 then None
    else
      match (HexValue(s[0]), HexValue(s[1]), HexValue(s[2]), HexValue(s[3]))
      case (Some(a), Some(b), Some(c), Some(d)) => Some(((a * 16 + b) * 16 + c) * 16 + d)
      case _ => None
  }

  /** The character after a backslash, other than `u`. */
  function Unescape(c: CodePoint): (r: Option<CodePoint>) {
    if c == QUOTE || c == BACKSLASH || c == 0x2F then Some(c)
    else if c == 0x62 then Some(0x08)
    else if c == 0x66 then Some(0x0C)
    else if c == 0x6E then Some(0x0A)
    else if c == 0x72 then Some(0x0D)
    else if c == 0x74 then Some(0x09)
    else None
  }

  /** One character of a string body: a plain one, an escape, or a surrogate pair of escapes. */
  function ParsePoint(s: Text): (r: Parsed<CodePoint>)
    requires s != [] && s[0] != QUOTE
    ensures r.Done? ==> |r.rest| < |s|
  {
    if s[0] != BACKSLASH then
      if s[0] < 0x20 then Fail else Done(s[0], s[1..])
    else if |s| < 2 then Fail
    else if s[1] == 0x75 then
      match Hex4(s[2..])
      case None => Fail
      case Some(high) =>
        if 0xD800 <= high < 0xDC00 && |s| >= 8 && s[6] == BACKSLASH && s[7] == 0x75 then
          match Hex4(s[8..])
          case None => Fail
          case Some(low) =>
            if 0xDC00 <= low < 0xE000 then Done(0x10000 + (high - 0xD800) * 0x400 + (low - 0xDC00), s[12..])
            else Done(high, s[6..])
        else Done(high, s[6..])
    else
      match Unescape(s[1])
      case None => Fail
      case Some(c) => Done(c, s[2..])
  }

  /** A string after its opening quote. */
  function ParseString(s: Text): (r: Parsed<Text>)
    ensures r.Done? ==> |r.rest| < |s|
    decreases |s|
  {
    if s == [] then Fail
    else if s[0] == QUOTE then Done([], s[1..])
    else
      match ParsePoint(s)
      case Fail => Fail
      case Done(c, rest) =>
        match ParseString(rest)
        case Fail => Fail
        case Done(cs, rest') => Done([c] + cs, rest')
  }

  // ----- Values

  function ParseValue(s: Text, maxDigits: nat): (r: Parsed<Json>)
    ensures r.Done? ==> |r.rest| < |s|
    decreases |s|, 0
  {
    if s == [] then Fail
    else if s[0] == QUOTE then
      match ParseString(s[1..])
      case Fail => Fail
      case Done(t, rest) => Done(Str(t), rest)
    else if s[0] == LBRACKET then ParseArray(SkipSpace(s[1..]), maxDigits)
    else if s[0] == LBRACE then ParseObject(SkipSpace(s[1..]), maxDigits)
    else if NULL_TEXT <= s then Done(Null, s[4..])
    else if TRUE_TEXT <= s then Done(Bool(true), s[4..])
    else if FALSE_TEXT <= s then Done(Bool(false), s[5..])
    else ParseNumber(s, maxDigits)
  }

  function ParseArray(t: Text, maxDigits: nat): (r: Parsed<Json>)
    ensures r.Done? ==> |r.rest| <= |t|
    decreases |t|, 3
  {
    if t != [] && t[0] == RBRACKET then Done(Arr([]), t[1..])
    else
      match ParseItems(t, maxDigits)
      case Fail => Fail
      case Done(items, rest) => Done(Arr(items), rest)
  }

  function ParseObject(t: Text, maxDigits: nat): (r: Parsed<Json>)
    ensures r.Done? ==> |r.rest| <= |t|
    decreases |t|, 3
  {
    if t != [] && t[0] == RBRACE then Done(Obj([]), t[1..])
    else
      match ParseMembers(t, maxDigits)
      case Fail => Fail
      case Done(members, rest) => if KeysDistinct(members) then Done(Obj(members), rest) else Fail
  }

  /** The elements of a non-empty array, through its closing bracket. */
  function ParseItems(s: Text, maxDigits: nat): (r: Parsed<seq<Json>>)
    ensures r.Done? ==> |r.rest| < |s| && r.value != []
    decreases |s|, 1
  {
    match ParseValue(s, maxDigits)
    case Fail => Fail
    case Done(v, rest) =>
      var t := SkipSpace(rest);
      if t == [] then Fail
      else if t[0] == RBRACKET then Done([v], t[1..])
      else if t[0] == COMMA then
        match ParseItems(SkipSpace(t[1..]), maxDigits)
        case Fail => Fail
        case Done(items, rest') => Done([v] + items, rest')
      else Fail
  }

  function ParseMember(s: Text, maxDigits: nat): (r: Parsed<Member>)
    ensures r.Done? ==> |r.rest| < |s|
    decreases |s|, 1
  {
    if s == [] || s[0] != QUOTE then Fail
    else
      match ParseString(s[1..])
      case Fail => Fail
      case Done(key, rest) =>
        var t := SkipSpace(rest);
        if t == [] || t[0] != COLON then Fail
        else
          match ParseValue(SkipSpace(t[1..]), maxDigits)
          case Fail => Fail
          case Done(v, rest') => Done(Member(key, v), rest')
  }

  function ParseMembers(s: Text, maxDigits: nat): (r: Parsed<seq<Member>>)
    ensures r.Done? ==> |r.rest| < |s| && r.value != []
    decreases |s|, 2
  {
    match ParseMember(s, maxDigits)
    case Fail => Fail
    case Done(m, rest) =>
      var t := SkipSpace(rest);
      if t == [] then Fail
      else if t[0] == RBRACE then Done([m], t[1..])
      else if t[0] == COMMA then
        match ParseMembers(SkipSpace(t[1..]), maxDigits)
        case Fail => Fail
        case Done(members, rest') => Done([m] + members, rest')
      else Fail
  }

  /** `reject_duplicate_json_object`. */
  predicate KeysDistinct(members: seq<Member>)
    ensures KeysDistinct(members) <==> UniqueKeys(members)
  {
    forall i, j :: 0 <= i < j < |members| ==> members[i].key != members[j].key
  }

  function Loads(text: Text, maxDigits: nat): Option<Json> {
    match ParseValue(SkipSpace(text), maxDigits)
    case Fail => None
    case Done(v, rest) => if SkipSpace(rest) == [] then Some(v) else None
  }

  // ----- Everything decoded has distinct keys and bounded integers

  lemma {:induction false} DigitsOf(n: nat)
    ensures AllDigits(Digits(n)) && NumberOf(Digits(n)) == n
    ensures Digits(n)[0] == 0x30 <==> n == 0
    decreases n
  {
    if n >= 10 {
      DigitsOf(n / 10);
      var d := Digits(n);
      assert d[..|d|-1] == Digits(n / 10);
    }
  }

  /** The printed form is the shortest: no digit string of the same value is shorter. */
  lemma {:induction false} DigitsShortest(d: Text)
    requires AllDigits(d) && d != []
    ensures |Digits(NumberOf(d))| <= |d|
    decreases |d|
  {
    var n, front := NumberOf(d), d[..|d|-1];
    if |d| > 1 {
      DigitsShortest(front);
      assert n / 10 == NumberOf(front);
    } else {
      assert NumberOf(front) == 0;
    }
  }

  ghost predicate WellParsed(shape: Shape, maxDigits: nat) {
    shape.distinct && shape.digits <= maxDigits
  }

  lemma {:induction false} ParseNumberWellFormed(s: Text, maxDigits: nat)
    requires ParseNumber(s, maxDigits).Done?
    ensures WellParsed(ShapeOf(ParseNumber(s, maxDigits).value), maxDigits)
  {
    var t := if s != [] && s[0] == MINUS then s[1..] else s;
    var d := IntPart(t).0;
    DigitsShortest(d);
    assert Magnitude(0 - NumberOf(d)) == NumberOf(d);
  }

  lemma {:induction false} ParseValueWellFormed(s: Text, maxDigits: nat)
    requires ParseValue(s, maxDigits).Done?
    ensures WellParsed(ShapeOf(ParseValue(s, maxDigits).value), maxDigits)
    decreases |s|, 0
  {
    if s[0] == QUOTE {
    } else if s[0] == LBRACKET {
      var t := SkipSpace(s[1..]);
      if t[0] != RBRACKET {
        ParseItemsWellFormed(t, maxDigits);
      }
    } else if s[0] == LBRACE {
      var t := SkipSpace(s[1..]);
      if t[0] != RBRACE {
        ParseMembersWellFormed(t, maxDigits);
      }
    } else if NULL_TEXT <= s || TRUE_TEXT <= s || FALSE_TEXT <= s {
    } else {
      ParseNumberWellFormed(s, maxDigits);
    }
  }

  lemma {:induction false} ParseItemsWellFormed(s: Text, maxDigits: nat)
    requires ParseItems(s, maxDigits).Done?
    ensures WellParsed(ShapeOfItems(ParseItems(s, maxDigits).value), maxDigits)
    decreases |s|, 1
  {
    ParseValueWellFormed(s, maxDigits);
    var t := SkipSpace(ParseValue(s, maxDigits).rest);
    if t[0] == COMMA {
      ParseItemsWellFormed(SkipSpace(t[1..]), maxDigits);
    }
  }

  lemma {:induction false} ParseMembersWellFormed(s: Text, maxDigits: nat)
    requires ParseMembers(s, maxDigits).Done?
    ensures WellParsed(ShapeOfMembers(ParseMembers(s, maxDigits).value), maxDigits)
    decreases |s|, 2
  {
    var key := ParseString(s[1..]);
    ParseValueWellFormed(SkipSpace(SkipSpace(key.rest)[1..]), maxDigits);
    var t := SkipSpace(ParseMember(s, maxDigits).rest);
    if t[0] == COMMA {
      ParseMembersWellFormed(SkipSpace(t[1..]), maxDigits);
    }
  }
}
