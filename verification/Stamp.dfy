/** The build stamp: one `FIELD=value` line per field of a fixed order. */
module Stamp {
  import opened Wrappers
  import opened Ordering
  import opened Utf8

  const MAX_STAMP_BYTES := 256 * 1024
  const LF: CodePoint := 0x0A
  const CR: CodePoint := 0x0D
  const NUL: CodePoint := 0x00
  const EQUALS: CodePoint := 0x3D

  /** What the names in STAMP_FIELD_ORDER have in common: they are distinct words of capitals,
      digits and underscores. */
  ghost predicate FieldOrder(order: seq<Text>) {
    && order != [] && NoDuplicates(order)
    && (forall i :: 0 <= i < |order| ==> order[i] != [] && Word(order[i]))
  }

  predicate WordChar(c: CodePoint) { 0x30 <= c <= 0x39 || 0x41 <= c <= 0x5A || c == 0x5F }

  ghost predicate Word(s: Text) { forall k :: 0 <= k < |s| ==> WordChar(s[k]) }

  // ----- serialize_stamp

  function Line(key: Text, value: Text): Text { key + [EQUALS] + value }

  function Lines(order: seq<Text>, fields: map<Text, Text>): seq<Text>
    requires forall i :: 0 <= i < |order| ==> order[i] in fields
  {
    seq(|order|, i requires 0 <= i < |order| => Line(order[i], fields[order[i]]))
  }

  /** `"\n".join(lines)`. */
  function Join(lines: seq<Text>): Text {
    if lines == [] then []
    else if |lines| == 1 then lines[0]
    else lines[0] + [LF] + Join(lines[1..])
  }

  /** A missing field is a KeyError, a line break in a value an AttestationError, a lone surrogate a
      UnicodeEncodeError. */
  function SerializeStamp(order: seq<Text>, fields: map<Text, Text>): Result<Bytes> {
    if exists i :: 0 <= i < |order| && (order[i] !in fields || LF in fields[order[i]] || CR in fields[order[i]])
    then Raised
    else
      var text := Join(Lines(order, fields)) + [LF];
      if Encodable(text) then Ok(Encode(text)) else Raised
  }

  /** `serialize_stamp`. */
  method WriteStamp(order: seq<Text>, fields: map<Text, Text>) returns (r: Result<Bytes>)
    ensures r == SerializeStamp(order, fields)
  {
    var lines: seq<Text> := [];
    for i := 0 to |order|
      invariant forall k :: 0 <= k < i ==> order[k] in fields && LF !in fields[order[k]] && CR !in fields[order[k]]
      invariant |lines| == i && forall k :: 0 <= k < i ==> lines[k] == Line(order[k], fields[order[k]])
    {
      if order[i] !in fields {
        return Raised;
      }
      var value := fields[order[i]];
      if LF in value || CR in value {
        return Raised;
      }
      lines := lines + [Line(order[i], value)];
    }
    assert lines == Lines(order, fields);
    var text := Join(lines) + [LF];
    return if Encodable(text) then Ok(Encode(text)) else Raised;
  }

  // ----- parse_stamp

  /** `text.split("\n")`. */
  function Split(text: Text): (lines: seq<Text>)
    ensures lines != []
  {
    if text == [] then [[]]
    else
      var rest := Split(text[1..]);
      if text[0] == LF then [[]] + rest else [[text[0]] + rest[0]] + rest[1..]
  }

  /** `line.partition("=")`: what precedes the first `=` and what follows it. */
  function Partition(line: Text): (r: Option<(Text, Text)>)
    ensures r.Some? ==> line == Line(r.value.0, r.value.1) && EQUALS !in r.value.0
    ensures r.None? ==> EQUALS !in line
  {
    if line == [] then None
    else if line[0] == EQUALS then Some(([], line[1..]))
    else
      match Partition(line[1..])
      case None => None
      case Some((key, value)) => Some(([line[0]] + key, value))
  }

  /** The insertion-ordered dict `fields`: its keys in order and its contents. */
  datatype Dict = Dict(keys: seq<Text>, fields: map<Text, Text>)

  /** Filling the dict line by line. */
  function Collect(lines: seq<Text>, dict: Dict): Result<Dict> {
    if lines == [] then Ok(dict)
    else
      match Partition(lines[0])
      case None => Raised
      case Some((key, value)) =>
        if key == [] || key in dict.fields then Raised
        else Collect(lines[1..], Dict(dict.keys + [key], dict.fields[key := value]))
  }

  method CollectFields(lines: seq<Text>) returns (r: Result<Dict>)
    ensures r == Collect(lines, Dict([], map[]))
  {
    var keys: seq<Text>, fields: map<Text, Text> := [], map[];
    assert lines[0..] == lines;
    for i := 0 to |lines|
      invariant Collect(lines, Dict([], map[])) == Collect(lines[i..], Dict(keys, fields))
    {
      assert lines[i..][0] == lines[i] && lines[i..][1..] == lines[i+1..];
      match Partition(lines[i]) {
        case None => return Raised;
        case Some((key, value)) =>
          if key == [] || key in fields {
            return Raised;
          }
          keys, fields := keys + [key], fields[key := value];
      }
    }
    return Ok(Dict(keys, fields));
  }

  /** Everything `parse_stamp` does before its last check. */
  function ParseFields(order: seq<Text>, content: Bytes): Result<map<Text, Text>> {
    if |content| > MAX_STAMP_BYTES then Raised
    else if content == [] || content[|content|-1] != LF || CR in content || NUL in content then Raised
    else
      match Decode(content)
      case None => Raised
      case Some(text) =>
        match Collect(Split(text[..|text|-1]), Dict([], map[]))
        case Raised => Raised
        case Ok(dict) => if dict.keys == order then Ok(dict.fields) else Raised
  }

  function ParseStamp(order: seq<Text>, content: Bytes): Result<map<Text, Text>> {
    match ParseFields(order, content)
    case Raised => Raised
    case Ok(fields) => if SerializeStamp(order, fields) == Ok(content) then Ok(fields) else Raised
  }

  /** `parse_stamp`. */
  method ReadStamp(order: seq<Text>, content: Bytes) returns (r: Result<map<Text, Text>>)
    ensures r == ParseStamp(order, content)
  {
    hide Decode, Split, Collect, SerializeStamp;
    if |content| > MAX_STAMP_BYTES {
      return Raised;
    }
    if content == [] || content[|content|-1] != LF || CR in content || NUL in content {
      return Raised;
    }
    var decoded := Decode(content);
    if decoded.None? {
      return Raised;
    }
    var text := decoded.value;
    var collected := CollectFields(Split(text[..|text|-1]));
    if collected.Raised? || collected.value.keys != order {
      return Raised;
    }
    var again := WriteStamp(order, collected.value.fields);
    return if again == Ok(content) then Ok(collected.value.fields) else Raised;
  }

  // ----- Split and join, partition and line

  lemma {:induction false} SplitJoin(text: Text)
    ensures Join(Split(text)) == text
    ensures forall i :: 0 <= i < |Split(text)| ==> LF !in Split(text)[i]
  {
    if text != [] {
      SplitJoin(text[1..]);
      var rest, all := Split(text[1..]), Split(text);
      assert text == [text[0]] + text[1..];
      if text[0] == LF {
        assert all == [[]] + rest;
      } else {
        assert all == [[text[0]] + rest[0]] + rest[1..];
      }
      hide Split;
      if text[0] == LF {
        NewLine(rest);
      } else {
        LongerLine(text[0], rest);
      }
    }
  }

  lemma NewLine(lines: seq<Text>)
    requires lines != []
    ensures Join([[]] + lines) == [LF] + Join(lines)
  {
    assert ([[]] + lines)[1..] == lines;
  }

  lemma LongerLine(c: CodePoint, lines: seq<Text>)
    requires lines != []
    ensures Join([[c] + lines[0]] + lines[1..]) == [c] + Join(lines)
  {
    assert ([[c] + lines[0]] + lines[1..])[1..] == lines[1..];
  }

  lemma {:induction false} SplitLine(line: Text, rest: Text)
    requires LF !in line
    ensures Split(line + [LF] + rest) == [line] + Split(rest)
    ensures Split(line) == [line]
  {
    var text := line + [LF] + rest;
    if line == [] {
      assert text[1..] == rest;
    } else {
      assert line == [line[0]] + line[1..];
      assert text[1..] == line[1..] + [LF] + rest;
      SplitLine(line[1..], rest);
    }
  }

  lemma {:induction false} JoinSplit(lines: seq<Text>)
    requires lines != [] && forall i :: 0 <= i < |lines| ==> LF !in lines[i]
    ensures Split(Join(lines)) == lines
  {
    if |lines| == 1 {
      SplitLine(lines[0], []);
    } else {
      JoinSplit(lines[1..]);
      SplitLine(lines[0], Join(lines[1..]));
    }
  }

  lemma {:induction false} PartitionLine(key: Text, value: Text)
    requires EQUALS !in key
    ensures Partition(Line(key, value)) == Some((key, value))
  {
    var line := Line(key, value);
    if key == [] {
      assert line[1..] == value;
    } else {
      assert key == [key[0]] + key[1..];
      assert line[1..] == Line(key[1..], value);
      PartitionLine(key[1..], value);
    }
  }

  lemma {:induction false} JoinHas(lines: seq<Text>, c: CodePoint)
    requires c != LF
    ensures c in Join(lines) <==> exists i :: 0 <= i < |lines| && c in lines[i]
  {
    if |lines| > 1 {
      JoinHas(lines[1..], c);
      assert forall i :: 0 < i < |lines| ==> lines[i] == lines[1..][i-1];
      assert (exists i :: 0 <= i < |lines| && c in lines[i])
        <==> c in lines[0] || exists i :: 0 <= i < |lines[1..]| && c in lines[1..][i];
    }
  }

  function Only(fields: map<Text, Text>, keys: seq<Text>): map<Text, Text> {
    map k | k in fields && k in keys :: fields[k]
  }

  // ----- What was serialized parses back

  lemma {:induction false} CollectLines(order: seq<Text>, fields: map<Text, Text>, k: nat)
    requires FieldOrder(order) && k <= |order|
    requires forall i :: 0 <= i < |order| ==> order[i] in fields
    ensures Collect(Lines(order, fields)[k..], Dict(order[..k], Only(fields, order[..k])))
         == Ok(Dict(order, Only(fields, order)))
    decreases |order| - k
  {
    var lines := Lines(order, fields);
    if k == |order| {
      assert order[..k] == order && lines[k..] == [];
    } else {
      var key := order[k];
      assert EQUALS !in key;
      PartitionLine(key, fields[key]);
      assert lines[k..][0] == Line(key, fields[key]) && lines[k..][1..] == lines[k+1..];
      assert order[..k+1] == order[..k] + [key];
      assert key !in order[..k];
      assert Only(fields, order[..k])[key := fields[key]] == Only(fields, order[..k+1]);
      CollectLines(order, fields, k + 1);
    }
  }

  /** A control character of the text is in some value, or is a line end. */
  lemma InSomeValue(order: seq<Text>, fields: map<Text, Text>, c: CodePoint)
    requires FieldOrder(order) && !WordChar(c) && c != EQUALS && c != LF
    requires forall i :: 0 <= i < |order| ==> order[i] in fields
    ensures c in Join(Lines(order, fields)) + [LF] <==> exists i :: 0 <= i < |order| && c in fields[order[i]]
  {
    var lines := Lines(order, fields);
    JoinHas(lines, c);
    forall i | 0 <= i < |order| ensures c in lines[i] <==> c in fields[order[i]] {
      InLine(order[i], fields[order[i]], c);
    }
    assert (exists i :: 0 <= i < |lines| && c in lines[i])
      <==> exists i :: 0 <= i < |order| && c in fields[order[i]] by {
      if i :| 0 <= i < |order| && c in fields[order[i]] {
        assert c in lines[i];
      }
    }
  }

  lemma InLine(key: Text, value: Text, c: CodePoint)
    requires Word(key) && !WordChar(c) && c != EQUALS
    ensures c in Line(key, value) <==> c in value
  {
    assert Line(key, value) == key + ([EQUALS] + value);
  }

  /** The first part of parsing: the bytes of a serialized stamp split back into its fields. */
  lemma FieldsBack(order: seq<Text>, fields: map<Text, Text>)
    requires FieldOrder(order) && SerializeStamp(order, fields).Ok?
    ensures Collect(Split(Join(Lines(order, fields))), Dict([], map[])) == Ok(Dict(order, Only(fields, order)))
  {
    var lines := Lines(order, fields);
    forall i | 0 <= i < |lines| ensures LF !in lines[i] {
      assert !WordChar(LF);
      InLine(order[i], fields[order[i]], LF);
    }
    JoinSplit(lines);
    CollectLines(order, fields, 0);
    assert lines[0..] == lines && Only(fields, order[..0]) == map[];
  }

  /** A stamp that could be written reads back as the fields of the schema it holds, `=` in values
      included, exactly when it has no NUL and is not over the size limit. */
  lemma SerializeThenParse(order: seq<Text>, fields: map<Text, Text>)
    requires FieldOrder(order) && SerializeStamp(order, fields).Ok?
    ensures var content := SerializeStamp(order, fields).value;
            ParseStamp(order, content) ==
              if |content| <= MAX_STAMP_BYTES && forall i :: 0 <= i < |order| ==> NUL !in fields[order[i]]
              then Ok(Only(fields, order)) else Raised
    ensures (forall k :: k in fields ==> k in order) ==> Only(fields, order) == fields
  {
    hide Decode, Encode, Encodable, Join, Split, Collect;
    var lines := Lines(order, fields);
    var text := Join(lines) + [LF];
    var content := Encode(text);
    DecodeEncode(text);
    assert text[..|text|-1] == Join(lines);
    LastCharacter(text);
    AsciiOccurs(text, CR);
    AsciiOccurs(text, NUL);
    InSomeValue(order, fields, CR);
    InSomeValue(order, fields, NUL);
    FieldsBack(order, fields);
    assert Lines(order, Only(fields, order)) == lines;
    assert SerializeStamp(order, Only(fields, order)) == Ok(content);
  }

  /** `A=b=` and a newline. */
  lemma StampExample()
    ensures SerializeStamp([[0x41]], map[[0x41] := [0x62, 0x3D]]) == Ok([0x41, 0x3D, 0x62, 0x3D, 0x0A])
  {
    var order, fields := [[0x41]], map[[0x41] := [0x62, 0x3D]];
    assert Lines(order, fields) == [Line([0x41], [0x62, 0x3D])];
    var text: Text := [0x41, 0x3D, 0x62, 0x3D, 0x0A];
    assert Join(Lines(order, fields)) + [LF] == text;
    AsciiText(text);
  }

  lemma {:induction false} AsciiText(text: Text)
    requires forall i :: 0 <= i < |text| ==> text[i] < 0x80
    ensures Encode(text) == text && Encodable(text)
  {
    if text != [] {
      AsciiText(text[1..]);
      assert text == [text[0]] + text[1..];
    }
  }

  // ----- What parses was serialized

  lemma {:induction false} CollectRestores(lines: seq<Text>, done: seq<Text>, dict: Dict)
    requires NoDuplicates(dict.keys) && (forall k :: k in dict.keys <==> k in dict.fields)
    requires done == Lines(dict.keys, dict.fields)
    requires Collect(lines, dict).Ok?
    ensures var r := Collect(lines, dict).value;
            && NoDuplicates(r.keys) && (forall k :: k in r.keys <==> k in r.fields)
            && Lines(r.keys, r.fields) == done + lines
  {
    if lines == [] {
      assert done + lines == done;
    } else {
      var (key, value) := Partition(lines[0]).value;
      var next := Dict(dict.keys + [key], dict.fields[key := value]);
      forall i | 0 <= i < |dict.keys| ensures Lines(next.keys, next.fields)[i] == done[i] {
        assert dict.keys[i] in dict.keys;
      }
      assert Lines(next.keys, next.fields) == done + [lines[0]];
      CollectRestores(lines[1..], done + [lines[0]], next);
      assert done + [lines[0]] + lines[1..] == done + lines;
    }
  }

  /** The re-serialisation check at the end of `parse_stamp` can never fail. */
  lemma LastCheckNeverFails(order: seq<Text>, content: Bytes)
    requires ParseFields(order, content).Ok?
    ensures SerializeStamp(order, ParseFields(order, content).value) == Ok(content)
    ensures ParseStamp(order, content) == ParseFields(order, content)
  {
    hide Decode, Encode, Encodable, Join, Split, Collect;
    var text := Decode(content).value;
    EncodeDecode(content);
    var body := text[..|text|-1];
    var lines, fields := Split(body), ParseFields(order, content).value;
    LastCharacter(text);
    assert text == body + [LF];
    SplitJoin(body);
    CollectRestores(lines, [], Dict([], map[]));
    assert [] + lines == lines;
    AsciiOccurs(text, CR);
    JoinHas(lines, CR);
    forall i | 0 <= i < |order|
      ensures order[i] in fields && LF !in fields[order[i]] && CR !in fields[order[i]]
    {
      assert order[i] in order;
      assert lines[i] == Line(order[i], fields[order[i]]);
    }
  }

  lemma {:induction false} LastCharacter(text: Text)
    requires text != []
    ensures var b := Encode(text); b[|b|-1] == LF <==> text[|text|-1] == LF
  {
    var front := text[..|text|-1];
    assert text == front + [text[|text|-1]];
    EncodeConcat(front, [text[|text|-1]]);
    assert Encode([text[|text|-1]]) == EncodePoint(text[|text|-1]) + Encode([]);
  }

  /** So a stamp's bytes and its fields determine each other. */
  lemma ParseInjective(order: seq<Text>, a: Bytes, b: Bytes)
    requires ParseStamp(order, a).Ok? && ParseStamp(order, a) == ParseStamp(order, b)
    ensures a == b
  {
    LastCheckNeverFails(order, a);
    LastCheckNeverFails(order, b);
  }
}
