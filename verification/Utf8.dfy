/** Python `str` as a sequence of code points, and its strict UTF-8 form (RFC 3629, section 3). */
module Utf8 {
  import opened Wrappers

  type CodePoint = c: int | 0 <= c < 0x110000
  type Text = seq<CodePoint>
  type Byte = b: int | 0 <= b < 256
  type Bytes = seq<Byte>

  predicate Surrogate(c: CodePoint) { 0xD800 <= c < 0xE000 }

  /** Whether `str.encode("utf-8", errors="strict")` succeeds. */
  predicate Encodable(t: Text) { forall i :: 0 <= i < |t| ==> !Surrogate(t[i]) }

  function EncodePoint(c: CodePoint): (r: Bytes)
    ensures 1 <= |r| <= 4
    ensures c < 0x80 ==> r == [c]
    ensures c >= 0x80 ==> forall i :: 0 <= i < |r| ==> r[i] >= 0x80
  {
    if c < 0x80 then [c]
    else if c < 0x800 then [0xC0 + c / 64, 0x80 + c % 64]
    else if c < 0x10000 then [0xE0 + c / 4096, 0x80 + c / 64 % 64, 0x80 + c % 64]
    else [0xF0 + c / 262144, 0x80 + c / 4096 % 64, 0x80 + c / 64 % 64, 0x80 + c % 64]
  }

  function Encode(t: Text): (r: Bytes)
    ensures |t| <= |r|
  {
    if t == [] then [] else EncodePoint(t[0]) + Encode(t[1..])
  }

  // ----- Strict decoding

  predicate Tail(b: int) { 0x80 <= b < 0xC0 }

  /** The value in the leading bytes, by the length the first byte announces. */
  function LeadingValue(b: seq<int>): Option<int>
    requires b != []
  {
    if b[0] < 0x80 then Some(b[0])
    else if 0xC0 <= b[0] < 0xE0 && |b| >= 2 && Tail(b[1]) then
      Some((b[0] - 0xC0) * 64 + b[1] - 0x80)
    else if 0xE0 <= b[0] < 0xF0 && |b| >= 3 && Tail(b[1]) && Tail(b[2]) then
      Some((b[0] - 0xE0) * 4096 + (b[1] - 0x80) * 64 + b[2] - 0x80)
    else if 0xF0 <= b[0] < 0xF8 && |b| >= 4 && Tail(b[1]) && Tail(b[2]) && Tail(b[3]) then
      Some((b[0] - 0xF0) * 262144 + (b[1] - 0x80) * 4096 + (b[2] - 0x80) * 64 + b[3] - 0x80)
    else None
  }

  /** The first code point, unless the bytes are malformed, overlong, a surrogate or out of range. */
  function FirstPoint(b: Bytes): (r: Option<CodePoint>)
    requires b != []
    ensures r.Some? ==> |EncodePoint(r.value)| <= |b|
  {
    match LeadingValue(b)
    case None => None
    case Some(c) =>
      var least := if b[0] < 0x80 then 0 else if b[0] < 0xE0 then 0x80 else if b[0] < 0xF0 then 0x800 else 0x10000;
      if least <= c < 0x110000 && !Surrogate(c) then Some(c) else None
  }

  /** `bytes.decode("utf-8", errors="strict")`. */
  function Decode(b: Bytes): (r: Option<Text>)
    ensures r.Some? ==> (r.value == [] <==> b == [])
    decreases |b|
  {
    if b == [] then Some([])
    else
      match FirstPoint(b)
      case None => None
      case Some(c) =>
        match Decode(b[|EncodePoint(c)|..])
        case None => None
        case Some(rest) => Some([c] + rest)
  }

  /** What is read as a code point is its one legal form. */
  lemma FirstPointLegal(b: Bytes)
    requires b != [] && FirstPoint(b).Some?
    ensures !Surrogate(FirstPoint(b).value) && EncodePoint(FirstPoint(b).value) <= b
  {
    if b[0] < 0x80 {
    } else if b[0] < 0xE0 {
      TwoBytes(b);
    } else if b[0] < 0xF0 {
      ThreeBytes(b);
    } else {
      FourBytes(b);
    }
  }

  lemma TwoBytes(b: Bytes)
    requires b != [] && 0x80 <= b[0] < 0xE0 && FirstPoint(b).Some?
    ensures EncodePoint(FirstPoint(b).value) <= b
  {
    var p: seq<int> := b;
    Split64(p[0] - 0xC0, p[1] - 0x80);
  }

  lemma ThreeBytes(b: Bytes)
    requires b != [] && 0xE0 <= b[0] < 0xF0 && FirstPoint(b).Some?
    ensures EncodePoint(FirstPoint(b).value) <= b
  {
    var p: seq<int> := b;
    Split4096(p[0] - 0xE0, p[1] - 0x80, p[2] - 0x80);
  }

  lemma FourBytes(b: Bytes)
    requires b != [] && b[0] >= 0xF0 && FirstPoint(b).Some?
    ensures EncodePoint(FirstPoint(b).value) <= b
  {
    var p: seq<int> := b;
    Split262144(p[0] - 0xF0, p[1] - 0x80, p[2] - 0x80, p[3] - 0x80);
  }

  lemma Split64(high: nat, low: nat)
    requires low < 64
    ensures (high * 64 + low) / 64 == high && (high * 64 + low) % 64 == low
  {
  }

  lemma Split4096(high: nat, middle: nat, low: nat)
    requires middle < 64 && low < 64
    ensures var c := high * 4096 + middle * 64 + low;
            c / 4096 == high && c / 64 % 64 == middle && c % 64 == low
  {
    var c := high * 4096 + middle * 64 + low;
    assert c == (high * 64 + middle) * 64 + low;
    Split64(high * 64 + middle, low);
    Split64(high, middle);
    assert c / 4096 == c / 64 / 64;
  }

  lemma Split262144(top: nat, high: nat, middle: nat, low: nat)
    requires high < 64 && middle < 64 && low < 64
    ensures var c := top * 262144 + high * 4096 + middle * 64 + low;
            c / 262144 == top && c / 4096 % 64 == high && c / 64 % 64 == middle && c % 64 == low
  {
    var c := top * 262144 + high * 4096 + middle * 64 + low;
    assert c == (top * 64 + high) * 4096 + middle * 64 + low;
    Split4096(top * 64 + high, middle, low);
    Split64(top, high);
    assert c / 262144 == c / 4096 / 64;
  }

  lemma EncodableCons(c: CodePoint, rest: Text)
    ensures Encodable([c] + rest) <==> !Surrogate(c) && Encodable(rest)
    ensures Encode([c] + rest) == EncodePoint(c) + Encode(rest)
  {
    var t := [c] + rest;
    assert t[0] == c && t[1..] == rest;
    assert forall i :: 0 <= i < |rest| ==> rest[i] == t[i+1];
    hide EncodePoint;
  }

  /** Decoding accepts nothing but encodings. */
  lemma {:induction false} EncodeDecode(b: Bytes)
    requires Decode(b).Some?
    ensures Encodable(Decode(b).value) && Encode(Decode(b).value) == b
    decreases |b|
  {
    if b != [] {
      DecodeCons(b);
      FirstPointLegal(b);
      hide FirstPoint, EncodePoint, Encodable, Encode, Surrogate, Decode;
      var c := FirstPoint(b).value;
      var after := b[|EncodePoint(c)|..];
      EncodeDecode(after);
      EncodableCons(c, Decode(after).value);
    }
  }

  lemma DecodeCons(b: Bytes)
    requires b != [] && Decode(b).Some?
    ensures FirstPoint(b).Some?
    ensures var c := FirstPoint(b).value;
            var after := Decode(b[|EncodePoint(c)|..]);
            after.Some? && Decode(b).value == [c] + after.value
  {
  }

  lemma FirstPointOf(c: CodePoint, rest: Bytes)
    requires !Surrogate(c)
    ensures FirstPoint(EncodePoint(c) + rest) == Some(c)
  {
    var p, b := EncodePoint(c), EncodePoint(c) + rest;
    PointValue(c);
    PointLength(c);
    assert b[0] == p[0] && (|p| >= 2 ==> b[1] == p[1]) && (|p| >= 3 ==> b[2] == p[2]) && (|p| >= 4 ==> b[3] == p[3]);
  }

  /** And every encoding decodes to the text it came from. */
  lemma {:induction false} DecodeEncode(t: Text)
    requires Encodable(t)
    ensures Decode(Encode(t)) == Some(t)
  {
    if t != [] {
      FirstPointOf(t[0], Encode(t[1..]));
      EncodableCons(t[0], t[1..]);
      assert t == [t[0]] + t[1..];
      hide FirstPoint, EncodePoint, Encode, Encodable;
      DecodeEncode(t[1..]);
      DecodeOf(t[0], Encode(t[1..]), t[1..]);
    }
  }

  lemma DecodeOf(c: CodePoint, b: Bytes, rest: Text)
    requires FirstPoint(EncodePoint(c) + b) == Some(c) && Decode(b) == Some(rest)
    ensures Decode(EncodePoint(c) + b) == Some([c] + rest)
  {
    hide FirstPoint, EncodePoint;
    assert (EncodePoint(c) + b)[|EncodePoint(c)|..] == b;
  }

  // ----- Encoding is injective

  lemma PointLength(c: CodePoint)
    ensures var b := EncodePoint(c)[0];
            |EncodePoint(c)| == if b < 0xC0 then 1 else if b < 0xE0 then 2 else if b < 0xF0 then 3 else 4
  {
  }

  lemma PointValue(c: CodePoint)
    ensures var p: seq<int> := EncodePoint(c);
            c == if |p| == 1 then p[0]
                 else if |p| == 2 then (p[0] - 0xC0) * 64 + p[1] - 0x80
                 else if |p| == 3 then (p[0] - 0xE0) * 4096 + (p[1] - 0x80) * 64 + p[2] - 0x80
                 else (p[0] - 0xF0) * 262144 + (p[1] - 0x80) * 4096 + (p[2] - 0x80) * 64 + p[3] - 0x80
  {
    assert c / 4096 == c / 64 / 64 && c / 262144 == c / 4096 / 64;
  }

  lemma PointInjective(c: CodePoint, d: CodePoint, x: Bytes, y: Bytes)
    requires EncodePoint(c) + x == EncodePoint(d) + y
    ensures c == d && x == y
  {
    var l, r, p, q := EncodePoint(c) + x, EncodePoint(d) + y, EncodePoint(c), EncodePoint(d);
    assert p[0] == l[0] == r[0] == q[0];
    PointLength(c);
    PointLength(d);
    assert p == l[..|p|] == r[..|q|] == q;
    assert x == l[|p|..] && y == r[|q|..];
    PointValue(c);
    PointValue(d);
  }

  /** No two texts share a UTF-8 form. */
  lemma {:induction false} EncodeInjective(s: Text, t: Text)
    requires Encode(s) == Encode(t)
    ensures s == t
  {
    if s == [] || t == [] {
      assert |Encode(s)| == 0;
    } else {
      PointInjective(s[0], t[0], Encode(s[1..]), Encode(t[1..]));
      EncodeInjective(s[1..], t[1..]);
      assert s == [s[0]] + s[1..] && t == [t[0]] + t[1..];
    }
  }

  lemma {:induction false} EncodeConcat(s: Text, t: Text)
    ensures Encode(s + t) == Encode(s) + Encode(t)
  {
    hide EncodePoint;
    if s == [] {
      assert s + t == t;
    } else {
      var u := s + t;
      assert u[0] == s[0];
      assert u[1..] == s[1..] + t;
      EncodeConcat(s[1..], t);
    }
  }

  /** An ASCII byte occurs in the encoding exactly when the character occurs in the text. */
  lemma {:induction false} AsciiOccurs(t: Text, c: CodePoint)
    requires c < 0x80
    ensures c in Encode(t) <==> c in t
  {
    if t != [] {
      AsciiOccurs(t[1..], c);
      assert t == [t[0]] + t[1..];
      assert c in EncodePoint(t[0]) <==> c == t[0];
    }
  }

  /** Two of the examples in section 7 of RFC 3629. */
  lemma Rfc3629Examples()
    ensures Encode([0x41, 0x2262, 0x391, 0x2E]) == [0x41, 0xE2, 0x89, 0xA2, 0xCE, 0x91, 0x2E]
    ensures Encode([0xFEFF, 0x233B4]) == [0xEF, 0xBB, 0xBF, 0xF0, 0xA3, 0x8E, 0xB4]
  {
    PointExamples();
    hide Encode, EncodePoint;
    EncodePair(0x41, 0x2262);
    EncodePair(0x391, 0x2E);
    EncodeConcat([0x41, 0x2262], [0x391, 0x2E]);
    assert [0x41, 0x2262, 0x391, 0x2E] == [0x41, 0x2262] + [0x391, 0x2E];
    EncodePair(0xFEFF, 0x233B4);
  }

  lemma PointExamples()
    ensures EncodePoint(0x41) == [0x41] && EncodePoint(0x2262) == [0xE2, 0x89, 0xA2]
    ensures EncodePoint(0x391) == [0xCE, 0x91] && EncodePoint(0x2E) == [0x2E]
    ensures EncodePoint(0xFEFF) == [0xEF, 0xBB, 0xBF] && EncodePoint(0x233B4) == [0xF0, 0xA3, 0x8E, 0xB4]
  {
  }

  lemma EncodePair(c: CodePoint, d: CodePoint)
    ensures Encode([c, d]) == EncodePoint(c) + EncodePoint(d)
  {
    var pair: Text := [c, d];
    assert pair[1..] == [d] && pair[1..][1..] == [];
    assert Encode([]) == [];
    assert Encode([d]) == EncodePoint(d) + Encode([d][1..]);
    assert Encode(pair) == EncodePoint(c) + Encode([d]);
  }
}
