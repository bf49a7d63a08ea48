/** Decoded JSON values, the canonical text of one, and what the post-parse checks measure of one.
    A Python dict is its insertion-ordered list of items; floats are outside the model. */
module Json {
  import opened Numbers
  import opened Ordering
  import opened Utf8

  datatype Json =
    | Null
    | Bool(b: bool)
    | Num(n: int)
    | Str(s: Text)
    | Arr(items: seq<Json>)
    | Obj(members: seq<Member>)

  datatype Member = Member(key: Text, value: Json)

  const QUOTE: CodePoint := 0x22
  const BACKSLASH: CodePoint := 0x5C
  const COMMA: CodePoint := 0x2C
  const COLON: CodePoint := 0x3A
  const LBRACKET: CodePoint := 0x5B
  const RBRACKET: CodePoint := 0x5D
  const LBRACE: CodePoint := 0x7B
  const RBRACE: CodePoint := 0x7D
  const MINUS: CodePoint := 0x2D
  const NEWLINE: CodePoint := 0x0A
  const NULL_TEXT: Text := [0x6E, 0x75, 0x6C, 0x6C]
  const TRUE_TEXT: Text := [0x74, 0x72, 0x75, 0x65]
  const FALSE_TEXT: Text := [0x66, 0x61, 0x6C, 0x73, 0x65]

  // ----- Canonical text (sort_keys=True, separators=(",", ":"), ensure_ascii=False)

  function Digits(n: nat): (d: Text)
    ensures d != []
  {
    if n < 10 then [0x30 + n] else Digits(n / 10) + [0x30 + n % 10]
  }

  function Magnitude(n: int): nat { if n < 0 then -n else n }

  function HexDigit(n: nat): CodePoint
    requires n < 16
  {
    if n < 10 then 0x30 + n else 0x61 + n - 10
  }

  function EscapePoint(c: CodePoint): (r: Text)
    ensures r != []
  {
    if c == QUOTE || c == BACKSLASH then [BACKSLASH, c]
    else if c == 0x08 then [BACKSLASH, 0x62]
    else if c == 0x0C then [BACKSLASH, 0x66]
    else if c == 0x0A then [BACKSLASH, 0x6E]
    else if c == 0x0D then [BACKSLASH, 0x72]
    else if c == 0x09 then [BACKSLASH, 0x74]
    else if c < 0x20 then [BACKSLASH, 0x75, 0x30, 0x30, HexDigit(c / 16), HexDigit(c % 16)]
    else [c]
  }

  function Escape(s: Text): Text {
    if s == [] then [] else EscapePoint(s[0]) + Escape(s[1..])
  }

  function Quoted(s: Text): Text { [QUOTE] + Escape(s) + [QUOTE] }

  /** The compact text of a value, object members in the order they are held. */
  function Render(v: Json): (r: Text)
    ensures r != []
    decreases v, 0
  {
    match v
    case Null => NULL_TEXT
    case Bool(b) => if b then TRUE_TEXT else FALSE_TEXT
    case Num(n) => (if n < 0 then [MINUS] else []) + Digits(Magnitude(n))
    case Str(s) => Quoted(s)
    case Arr(items) =>
      if items == [] then [LBRACKET, RBRACKET] else [LBRACKET] + RenderItems(items)
    case Obj(members) =>
      if members == [] then [LBRACE, RBRACE] else [LBRACE] + RenderMembers(members)
  }

  /** The elements of a non-empty array and its closing bracket. */
  function RenderItems(items: seq<Json>): Text
    requires items != []
    decreases items, 0
  {
    Render(items[0]) + if |items| == 1 then [RBRACKET] else [COMMA] + RenderItems(items[1..])
  }

  function RenderMembers(members: seq<Member>): Text
    requires members != []
    decreases members, 0
  {
    Quoted(members[0].key) + [COLON] + Render(members[0].value)
    + if |members| == 1 then [RBRACE] else [COMMA] + RenderMembers(members[1..])
  }

  predicate KeyLeq(a: Member, b: Member) { LexLeq(a.key, b.key) }

  /** The value with every object's members put in key order. */
  function SortKeys(v: Json): Json
    decreases v, 0
  {
    match v
    case Arr(items) => Arr(SortItems(items))
    case Obj(members) => Obj(Sort(KeyLeq, SortValues(members)))
    case _ => v
  }

  function SortItems(items: seq<Json>): (r: seq<Json>)
    ensures |r| == |items|
    decreases items, 0
  {
    if items == [] then [] else [SortKeys(items[0])] + SortItems(items[1..])
  }

  function SortValues(members: seq<Member>): (r: seq<Member>)
    ensures |r| == |members|
    ensures forall i :: 0 <= i < |r| ==> r[i].key == members[i].key
    decreases members, 0
  {
    if members == [] then []
    else [Member(members[0].key, SortKeys(members[0].value))] + SortValues(members[1..])
  }

  function CanonicalText(v: Json): Text { Render(SortKeys(v)) + [NEWLINE] }

  // ----- What the resource check measures

  /** `nodes`: values, keys not counted; `height`: depth of the deepest value, -1 when there is none;
      `nesting`: depth of containers inside containers; `digits`, `text`: the longest integer and
      UTF-8 string; `encodable`: no lone surrogate; `distinct`: no object repeats a key. */
  datatype Shape = Shape(nodes: nat, height: int, nesting: nat, digits: nat, text: nat,
                         encodable: bool, distinct: bool)

  const NO_SHAPE := Shape(0, -1, 0, 0, 0, true, true)
  const LEAF := Shape(1, 0, 0, 0, 0, true, true)

  function Merge(a: Shape, b: Shape): Shape {
    Shape(a.nodes + b.nodes, Max(a.height, b.height), Max(a.nesting, b.nesting), Max(a.digits, b.digits),
          Max(a.text, b.text), a.encodable && b.encodable, a.distinct && b.distinct)
  }

  /** A container around contents of shape `a`. */
  function Enclose(a: Shape): Shape {
    a.(nodes := a.nodes + 1, height := a.height + 1, nesting := a.nesting + 1)
  }

  function TextShape(s: Text): Shape {
    NO_SHAPE.(text := |Encode(s)|, encodable := Encodable(s))
  }

  ghost predicate UniqueKeys(members: seq<Member>) {
    forall i, j :: 0 <= i < j < |members| ==> members[i].key != members[j].key
  }

  ghost function ShapeOf(v: Json): (r: Shape)
    ensures r.nodes >= 1 && r.height >= 0 && r.height <= r.nesting <= r.height + 1
    decreases v, 0
  {
    match v
    case Num(n) => LEAF.(digits := |Digits(Magnitude(n))|)
    case Str(s) => Merge(LEAF, TextShape(s))
    case Arr(items) => Enclose(ShapeOfItems(items))
    case Obj(members) =>
      var inner := ShapeOfMembers(members);
      Enclose(inner.(distinct := inner.distinct && UniqueKeys(members)))
    case _ => LEAF
  }

  ghost function ShapeOfItems(items: seq<Json>): (r: Shape)
    ensures r.height >= -1 && r.height <= r.nesting <= r.height + 1
    decreases items, 0
  {
    if items == [] then NO_SHAPE else Merge(ShapeOf(items[0]), ShapeOfItems(items[1..]))
  }

  ghost function ShapeOfMember(m: Member): (r: Shape)
    decreases m, 0
  {
    Merge(TextShape(m.key), ShapeOf(m.value))
  }

  ghost function ShapeOfMembers(members: seq<Member>): (r: Shape)
    ensures r.height >= -1 && r.height <= r.nesting <= r.height + 1
    decreases members, 0
  {
    if members == [] then NO_SHAPE else Merge(ShapeOfMember(members[0]), ShapeOfMembers(members[1..]))
  }

  // ----- Sorting keys changes no measurement

  lemma {:induction false} InsertShape(m: Member, members: seq<Member>)
    ensures ShapeOfMembers(Insert(KeyLeq, m, members)) == Merge(ShapeOfMember(m), ShapeOfMembers(members))
  {
    if members == [] || KeyLeq(m, members[0]) {
      assert ([m] + members)[1..] == members;
    } else {
      InsertShape(m, members[1..]);
    }
  }

  lemma {:induction false} SortShape(members: seq<Member>)
    ensures ShapeOfMembers(Sort(KeyLeq, members)) == ShapeOfMembers(members)
  {
    if members != [] {
      SortShape(members[1..]);
      InsertShape(members[0], Sort(KeyLeq, members[1..]));
    }
  }

  lemma KeyOrder()
    ensures TotalPreorder(KeyLeq)
    ensures forall a, b :: KeyLeq(a, b) && KeyLeq(b, a) ==> a.key == b.key
  {
    LexIsTotalOrder();
  }

  lemma UniquePermutation(a: seq<Member>, b: seq<Member>)
    requires multiset(a) == multiset(b) && UniqueKeys(a)
    ensures UniqueKeys(b)
  {
    SameMembers(a, b);
    NoDuplicatesPermutation(a, b);
    assert NoDuplicates(a) by {
      assert forall i, j :: 0 <= i < j < |a| ==> a[i].key != a[j].key;
    }
    forall i, j | 0 <= i < j < |b| ensures b[i].key != b[j].key {
      assert b[i] in a && b[j] in a && b[i] != b[j];
    }
  }

  lemma {:induction false} SortKeysShape(v: Json)
    ensures ShapeOf(SortKeys(v)) == ShapeOf(v)
    decreases v, 0
  {
    match v
    case Arr(items) => SortItemsShape(items);
    case Obj(members) =>
      var inner := SortValues(members);
      SortValuesShape(members);
      SortShape(inner);
      var sorted := Sort(KeyLeq, inner);
      if UniqueKeys(inner) {
        UniquePermutation(inner, sorted);
      }
      if UniqueKeys(sorted) {
        UniquePermutation(sorted, inner);
      }
    case _ =>
  }

  lemma {:induction false} SortItemsShape(items: seq<Json>)
    ensures ShapeOfItems(SortItems(items)) == ShapeOfItems(items)
    decreases items, 0
  {
    if items != [] {
      SortKeysShape(items[0]);
      SortItemsShape(items[1..]);
    }
  }

  lemma {:induction false} SortValuesShape(members: seq<Member>)
    ensures ShapeOfMembers(SortValues(members)) == ShapeOfMembers(members)
    decreases members, 0
  {
    if members != [] {
      SortKeysShape(members[0].value);
      SortValuesShape(members[1..]);
    }
  }

  // ----- Keys ascend

  /** The keys of every object in the value ascend, by code points. */
  ghost predicate KeysAscend(v: Json)
    decreases v
  {
    match v
    case Arr(items) => forall i :: 0 <= i < |items| ==> KeysAscend(items[i])
    case Obj(members) =>
      && InKeyOrder(members)
      && (forall i :: 0 <= i < |members| ==> KeysAscend(members[i].value))
    case _ => true
  }

  ghost predicate InKeyOrder(members: seq<Member>) {
    forall i, j :: 0 <= i < j < |members| ==> Precedes(members[i].key, members[j].key)
  }

  lemma {:induction false} SortedKeysAscend(v: Json)
    ensures KeysAscend(SortKeys(v))
    decreases v
  {
    match v
    case Arr(items) =>
      forall i | 0 <= i < |items| ensures KeysAscend(SortItems(items)[i]) {
        SortItemsAt(items, i);
        SortedKeysAscend(items[i]);
      }
    case Obj(members) =>
      var inner := SortValues(members);
      var sorted := Sort(KeyLeq, inner);
      forall i | 0 <= i < |sorted| ensures KeysAscend(sorted[i].value) {
        SameMembers(sorted, inner);
        assert sorted[i] in inner;
        var k :| 0 <= k < |inner| && inner[k] == sorted[i];
        SortValuesAt(members, k);
        SortedKeysAscend(members[k].value);
      }
      MembersAscend(inner);
    case _ =>
  }

  lemma MembersAscend(members: seq<Member>)
    ensures InKeyOrder(Sort(KeyLeq, members))
  {
    var sorted := Sort(KeyLeq, members);
    KeyOrder();
    SortSorted(KeyLeq, members);
    hide Sort, Precedes;
    forall i, j | 0 <= i < j < |sorted| ensures Precedes(sorted[i].key, sorted[j].key) {
      assert KeyLeq(sorted[i], sorted[j]);
      LexByIndex(sorted[i].key, sorted[j].key);
    }
  }

  lemma {:induction false} SortItemsAt(items: seq<Json>, i: nat)
    requires i < |items|
    ensures SortItems(items)[i] == SortKeys(items[i])
  {
    if i > 0 {
      SortItemsAt(items[1..], i - 1);
    }
  }

  // ----- Sorting keys twice is sorting them once

  lemma {:induction false} SortValuesAt(members: seq<Member>, i: nat)
    requires i < |members|
    ensures SortValues(members)[i] == Member(members[i].key, SortKeys(members[i].value))
  {
    if i > 0 {
      SortValuesAt(members[1..], i - 1);
    }
  }

  lemma {:induction false} SortTwice(v: Json)
    ensures SortKeys(SortKeys(v)) == SortKeys(v)
    decreases v, 0
  {
    match v
    case Arr(items) => SortItemsTwice(items);
    case Obj(members) =>
      hide Sort, KeyLeq;
      SortMembersTwice(members);
      KeyOrder();
      SortSorted(KeyLeq, SortValues(members));
      SortOfSorted(KeyLeq, Sort(KeyLeq, SortValues(members)));
    case _ =>
  }

  lemma {:induction false} SortMembersTwice(members: seq<Member>)
    ensures var sorted := Sort(KeyLeq, SortValues(members)); SortValues(sorted) == sorted
    decreases members, 1
  {
    hide Sort, KeyLeq, SortKeys;
    var inner := SortValues(members);
    var sorted := Sort(KeyLeq, inner);
    SameMembers(sorted, inner);
    forall i | 0 <= i < |sorted| ensures SortKeys(sorted[i].value) == sorted[i].value {
      assert sorted[i] in inner;
      var k :| 0 <= k < |inner| && inner[k] == sorted[i];
      SortValuesAt(members, k);
      SortTwice(members[k].value);
    }
    SortValuesFixed(sorted);
  }

  lemma {:induction false} SortItemsTwice(items: seq<Json>)
    ensures SortItems(SortItems(items)) == SortItems(items)
    decreases items, 0
  {
    if items != [] {
      SortTwice(items[0]);
      SortItemsTwice(items[1..]);
    }
  }

  lemma {:induction false} SortValuesFixed(members: seq<Member>)
    requires forall i :: 0 <= i < |members| ==> SortKeys(members[i].value) == members[i].value
    ensures SortValues(members) == members
  {
    if members != [] {
      SortValuesFixed(members[1..]);
      assert members == [members[0]] + members[1..];
    }
  }
}
