/** Printing nested schemas and splitting them again (database/DatabaseUniversal.go:114-160 and 619-657). */
module SchemaStrings {
  import opened Bytes

  type Text = seq<byte>

  const OPEN_STRUCT: byte := 123
  const CLOSE_STRUCT: byte := 125
  const OPEN_MAP: byte := 60
  const CLOSE_MAP: byte := 62
  const DASH: byte := 45
  const COLON: byte := 58
  const SLICE: Text := [91, 93]

  /** A field of a schema; `hasFields` tells an absent list of fields from an empty one. */
  datatype Field = Field(name: Text, isSlice: bool, isMap: bool, isCustom: bool, isStructKind: bool, valueType: Text,
                         hasFields: bool, fields: seq<Field>, isMapParam: bool, isStruct: bool)

  predicate IsDelimiter(c: byte) {
    c == OPEN_STRUCT || c == CLOSE_STRUCT || c == OPEN_MAP || c == CLOSE_MAP || c == DASH
  }

  predicate Plain(s: Text) {
    forall i :: 0 <= i < |s| ==> !IsDelimiter(s[i])
  }

  /** What BuildDBSchema builds (lines 165-213): structs and maps have fields, a map a key and a value. */
  predicate Built(f: Field) {
    && f.isStruct == (f.isStructKind && !f.isCustom)
    && f.hasFields == (f.isStruct || f.isMap)
    && !(f.isStruct && f.isMap)
    && (f.isMap ==> |f.fields| == 2)
    && forall i :: 0 <= i < |f.fields| ==> Built(f.fields[i]) && f.fields[i].isMapParam == f.isMap
  }

  function DepthAfter(depth: int, c: byte): int {
    if c == OPEN_STRUCT || c == OPEN_MAP then depth + 1
    else if c == CLOSE_STRUCT || c == CLOSE_MAP then depth - 1
    else depth
  }

  /** The depth behind `s`, unless it falls below one on the way or a dash stands at depth one. */
  function Scan(s: Text, depth: int): int {
    if s == [] then depth
    else
      var d := Scan(s[..|s| - 1], depth);
      var c := s[|s| - 1];
      if d < 1 then 0
      else if DepthAfter(d, c) < 1 || (DepthAfter(d, c) == 1 && c == DASH) then 0
      else DepthAfter(d, c)
  }

  /** In names and types brackets match and no dash stands outside them: `interface {}` is one. */
  predicate Neat(f: Field) {
    && Scan(f.name, 1) == 1 && Scan(f.valueType, 1) == 1
    && forall i :: 0 <= i < |f.fields| ==> Neat(f.fields[i])
  }

  predicate Valid(f: Field) {
    Built(f) && Neat(f)
  }

  // ----- printing -----

  function TrimSuffix(s: Text): Text {
    if s != [] && s[|s| - 1] == DASH then s[..|s| - 1] else s
  }

  /** The text of a field inside a struct or a map. */
  function FieldText(v: Field): Text
    requires Built(v)
    decreases v, 1
  {
    (if v.isMapParam then [] else v.name + [COLON])
    + if !v.isCustom && v.isStructKind then Print(v)
      else (if v.isSlice then SLICE else [])
           + if v.isMap then [OPEN_MAP] + Print(v.fields[0]) + [DASH] + Print(v.fields[1]) + [CLOSE_MAP] else v.valueType
  }

  function Dashed(fs: seq<Field>): Text
    requires forall i :: 0 <= i < |fs| ==> Built(fs[i])
    decreases fs, 2
  {
    if fs == [] then [] else Dashed(fs[..|fs| - 1]) + FieldText(fs[|fs| - 1]) + [DASH]
  }

  function Start(f: Field): Text {
    (if f.isSlice then SLICE else []) + if f.isStruct then [OPEN_STRUCT] else []
  }

  function Content(f: Field): Text
    requires Built(f)
    decreases f, 0, 1
  {
    if f.hasFields then Dashed(f.fields) else (if f.isMapParam then [] else f.name + [COLON]) + f.valueType
  }

  /** BuildDBSchemaString. */
  function Print(f: Field): Text
    requires Built(f)
    decreases f, 0, 2
  {
    TrimSuffix(Start(f) + Content(f)) + if f.isStruct then [CLOSE_STRUCT] else []
  }

  method BuildDBSchemaString(field: Field) returns (result: Text)
    requires Built(field)
    ensures result == Print(field)
    decreases field, 0, 2
  {
    hide Dashed, TrimSuffix;
    result := [];
    if field.isSlice {
      result := result + SLICE;
    }
    if field.isStruct {
      result := result + [OPEN_STRUCT];
    }
    assert result == Start(field);
    var content := BuildContent(field);
    hide Start, Content;
    result := TrimSuffix(result + content);
    if field.isStruct {
      result := result + [CLOSE_STRUCT];
    }
  }

  /** Its loop over the fields, or what is printed without fields. */
  method BuildContent(field: Field) returns (result: Text)
    requires Built(field)
    ensures result == Content(field)
    decreases field, 0, 1
  {
    hide FieldText;
    result := [];
    if field.hasFields {
      assert field.fields[..|field.fields|] == field.fields;
      for i := 0 to |field.fields|
        invariant result == Dashed(field.fields[..i])
      {
        assert field.fields[..i + 1][..i] == field.fields[..i];
        var text := BuildFieldString(field.fields[i]);
        result := result + text + [DASH];
      }
    } else {
      if !field.isMapParam {
        result := result + field.name + [COLON];
      }
      result := result + field.valueType;
    }
  }

  /** The body of its loop. */
  method BuildFieldString(v: Field) returns (result: Text)
    requires Built(v)
    ensures result == FieldText(v)
    decreases v, 1
  {
    hide Print;
    result := [];
    if !v.isMapParam {
      result := result + v.name + [COLON];
    }
    ghost var name := result;
    if !v.isCustom && v.isStructKind {
      var nested := BuildDBSchemaString(v);
      result := result + nested;
    } else {
      var slice := if v.isSlice then SLICE else [];
      result := result + slice;
      if v.isMap {
        var key := BuildDBSchemaString(v.fields[0]);
        var value := BuildDBSchemaString(v.fields[1]);
        result := result + ([OPEN_MAP] + key + [DASH] + value + [CLOSE_MAP]);
        assert result == name + (slice + ([OPEN_MAP] + key + [DASH] + value + [CLOSE_MAP]));
      } else {
        result := result + v.valueType;
        assert result == name + (slice + v.valueType);
      }
    }
  }

  // ----- splitting -----

  /** A byte made into a string is encoded as the character with its number. */
  function OfByte(b: byte): Text {
    if b < 128 then [b] else [192 + b / 64, 128 + b % 64]
  }

  /** The loop of buildStructSchemaStringParts, from behind index `i` on. */
  function Split(s: Text, i: nat, depth: int, current: Text, parts: seq<Text>): (r: (seq<Text>, nat))
    decreases |s| - i
  {
    if i >= |s| - 1 then (parts, i)
    else
      var c := s[i + 1];
      var d := DepthAfter(depth, c);
      if d == 0 then (parts + [current], i + 1)
      else if d == 1 && c == DASH then Split(s, i + 1, d, [], parts + [current])
      else Split(s, i + 1, d, if d >= 1 then current + OfByte(c) else current, parts)
  }

  method BuildStructSchemaStringParts(schemaString: Text, pos: nat) returns (schemaParts: seq<Text>, newPos: nat)
    ensures (schemaParts, newPos) == Split(schemaString, pos, 1, [], [])
  {
    newPos := pos;
    var braceDepth := 1;
    schemaParts := [];
    var currentPart := [];
    while newPos < |schemaString| - 1
      invariant Split(schemaString, newPos, braceDepth, currentPart, schemaParts) == Split(schemaString, pos, 1, [], [])
      decreases |schemaString| - newPos
    {
      newPos := newPos + 1;
      var c := schemaString[newPos];
      if c == OPEN_STRUCT || c == OPEN_MAP {
        braceDepth := braceDepth + 1;
      }
      if c == CLOSE_STRUCT || c == CLOSE_MAP {
        braceDepth := braceDepth - 1;
      }
      if braceDepth > 1 {
        currentPart := currentPart + OfByte(c);
      }
      if braceDepth == 1 {
        if c == DASH {
          schemaParts := schemaParts + [currentPart];
          currentPart := [];
          continue;
        }
        currentPart := currentPart + OfByte(c);
      }
      if braceDepth == 0 {
        schemaParts := schemaParts + [currentPart];
        break;
      }
    }
  }

  // ----- texts that are closed in themselves -----

  lemma {:induction false} ScanSplits(a: Text, b: Text, depth: int)
    requires Scan(a, depth) >= 1
    ensures Scan(a + b, depth) == Scan(b, Scan(a, depth))
  {
    if b == [] {
      assert a + b == a;
    } else {
      ScanSplits(a, b[..|b| - 1], depth);
      assert (a + b)[..|a + b| - 1] == a + b[..|b| - 1];
    }
  }

  /** A text that is closed at depth one is closed at every depth. */
  lemma {:induction false} ScanDeeper(s: Text, depth: int)
    requires Scan(s, 1) >= 1 && depth >= 1
    ensures Scan(s, depth) == Scan(s, 1) + depth - 1
  {
    if s != [] {
      ScanDeeper(s[..|s| - 1], depth);
    }
  }

  lemma ScanAnyDepth(s: Text, depth: int)
    requires Scan(s, 1) == 1 && depth >= 1
    ensures Scan(s, depth) == depth
  {
    ScanDeeper(s, depth);
  }

  lemma {:induction false} ScanPlain(s: Text, depth: int)
    requires Plain(s) && depth >= 1
    ensures Scan(s, depth) == depth
  {
    if s != [] {
      ScanPlain(s[..|s| - 1], depth);
    }
  }

  lemma ScanOne(c: byte, depth: int)
    requires depth >= 1
    ensures Scan([c], depth) ==
            if DepthAfter(depth, c) < 1 || (DepthAfter(depth, c) == 1 && c == DASH) then 0 else DepthAfter(depth, c)
  {
    assert [c][..0] == [];
  }

  /** What is put together from closed texts is closed. */
  lemma ScanJoin(a: Text, b: Text, depth: int)
    requires depth >= 1 && Scan(a, depth) == depth && Scan(b, depth) == depth
    ensures Scan(a + b, depth) == depth
  {
    ScanSplits(a, b, depth);
  }

  lemma ScanWrapped(open: byte, a: Text, close: byte, depth: int)
    requires depth >= 1 && (open == OPEN_STRUCT || open == OPEN_MAP) && (close == CLOSE_STRUCT || close == CLOSE_MAP)
    requires Scan(a, depth + 1) == depth + 1
    ensures Scan([open] + a + [close], depth) == depth
  {
    ScanOne(open, depth);
    ScanSplits([open], a, depth);
    ScanSplits([open] + a, [close], depth);
    ScanOne(close, depth + 1);
  }

  // ----- printed texts are closed -----

  /** The fields of a printed struct or map, with dashes between them. */
  function Joined(fs: seq<Field>): Text
    requires forall i :: 0 <= i < |fs| ==> Built(fs[i])
  {
    if fs == [] then []
    else (if |fs| == 1 then [] else Joined(fs[..|fs| - 1]) + [DASH]) + FieldText(fs[|fs| - 1])
  }

  lemma {:induction false} DashedIsJoined(fs: seq<Field>)
    requires forall i :: 0 <= i < |fs| ==> Built(fs[i])
    ensures Dashed(fs) == Joined(fs) + if fs == [] then [] else [DASH]
  {
    if |fs| == 1 {
      assert fs[..0] == [] && Dashed(fs[..0]) == [];
    } else if fs != [] {
      DashedIsJoined(fs[..|fs| - 1]);
    }
  }

  lemma TrimsDash(a: Text, b: Text)
    ensures TrimSuffix(a + (b + [DASH])) == a + b
  {
    var s := a + (b + [DASH]);
    assert s[..|s| - 1] == a + b;
  }

  /** Printing trims exactly the last dash. */
  lemma PrintWithFields(f: Field)
    requires Built(f) && f.hasFields
    ensures Print(f) == Start(f) + Joined(f.fields) + if f.isStruct then [CLOSE_STRUCT] else []
  {
    hide Dashed, Joined;
    DashedIsJoined(f.fields);
    if f.fields == [] {
      NothingToPrint();
      assert Start(f) + [] == Start(f);
    } else {
      hide Start;
      TrimsDash(Start(f), Joined(f.fields));
    }
  }

  lemma NothingToPrint()
    ensures Joined([]) == [] && Dashed([]) == []
  {
  }

  /** The last byte of a neat text is no dash, so nothing is trimmed. */
  lemma PrintWithoutFields(f: Field)
    requires Valid(f) && !f.hasFields
    ensures Print(f) == Start(f) + ((if f.isMapParam then [] else f.name + [COLON]) + f.valueType)
  {
  }

  lemma NeatName(f: Field, depth: int)
    requires Neat(f) && depth >= 1
    ensures Scan(if f.isMapParam then [] else f.name + [COLON], depth) == depth
  {
    if !f.isMapParam {
      ScanAnyDepth(f.name, depth);
      ScanPlain([COLON], depth);
      ScanJoin(f.name, [COLON], depth);
    }
  }

  /** Whatever is printed is closed, except that a map printed without its brackets shows its dash. */
  lemma {:induction false} PrintIsClosed(f: Field, depth: int)
    requires Valid(f) && depth >= 1 && (f.isMap ==> depth >= 2)
    ensures Scan(Print(f), depth) == depth
    decreases f, 0
  {
    hide Print, Scan, FieldText, Joined;
    if !f.hasFields {
      PrintWithoutFields(f);
      var name := if f.isMapParam then [] else f.name + [COLON];
      NeatName(f, depth);
      ScanAnyDepth(f.valueType, depth);
      ScanPlain(Start(f), depth);
      ScanJoin(name, f.valueType, depth);
      ScanJoin(Start(f), name + f.valueType, depth);
    } else {
      PrintWithFields(f);
      if f.isStruct {
        JoinedIsClosed(f.fields, depth + 1);
        ScanWrapped(OPEN_STRUCT, Joined(f.fields), CLOSE_STRUCT, depth);
        var slice := if f.isSlice then SLICE else [];
        ScanPlain(slice, depth);
        ScanJoin(slice, [OPEN_STRUCT] + Joined(f.fields) + [CLOSE_STRUCT], depth);
        assert Print(f) == slice + ([OPEN_STRUCT] + Joined(f.fields) + [CLOSE_STRUCT]);
      } else {
        JoinedIsClosed(f.fields, depth);
        ScanPlain(Start(f), depth);
        ScanJoin(Start(f), Joined(f.fields), depth);
        assert Print(f) == Start(f) + Joined(f.fields);
      }
    }
  }

  lemma {:induction false} JoinedIsClosed(fs: seq<Field>, depth: int)
    requires depth >= 2 && forall i :: 0 <= i < |fs| ==> Built(fs[i]) && Neat(fs[i])
    ensures Scan(Joined(fs), depth) == depth
    decreases fs, 2
  {
    hide FieldText;
    if fs == [] {
      return;
    }
    hide Scan;
    FieldTextIsClosed(fs[|fs| - 1], depth);
    if |fs| > 1 {
      JoinedIsClosed(fs[..|fs| - 1], depth);
      ScanOne(DASH, depth);
      ScanJoin(Joined(fs[..|fs| - 1]), [DASH], depth);
      ScanJoin(Joined(fs[..|fs| - 1]) + [DASH], FieldText(fs[|fs| - 1]), depth);
    } else {
      assert [] + FieldText(fs[0]) == FieldText(fs[0]);
    }
  }

  lemma {:induction false} FieldTextIsClosed(v: Field, depth: int)
    requires Valid(v) && depth >= 1
    ensures Scan(FieldText(v), depth) == depth
    decreases v, 1
  {
    hide Print, Scan;
    var name := if v.isMapParam then [] else v.name + [COLON];
    NeatName(v, depth);
    if v.isStruct {
      PrintIsClosed(v, depth);
      ScanJoin(name, Print(v), depth);
    } else {
      var slice := if v.isSlice then SLICE else [];
      ScanPlain(slice, depth);
      var tail := if v.isMap then [OPEN_MAP] + Print(v.fields[0]) + [DASH] + Print(v.fields[1]) + [CLOSE_MAP] else v.valueType;
      if v.isMap {
        PrintIsClosed(v.fields[0], depth + 1);
        PrintIsClosed(v.fields[1], depth + 1);
        ScanOne(DASH, depth + 1);
        ScanJoin(Print(v.fields[0]), [DASH], depth + 1);
        ScanJoin(Print(v.fields[0]) + [DASH], Print(v.fields[1]), depth + 1);
        ScanWrapped(OPEN_MAP, Print(v.fields[0]) + [DASH] + Print(v.fields[1]), CLOSE_MAP, depth);
        assert tail == [OPEN_MAP] + (Print(v.fields[0]) + [DASH] + Print(v.fields[1])) + [CLOSE_MAP];
      } else {
        ScanAnyDepth(tail, depth);
      }
      ScanJoin(slice, tail, depth);
      ScanJoin(name, slice + tail, depth);
      assert FieldText(v) == name + (slice + tail);
    }
  }

  // ----- splitting a closed text, and texts with dashes between them -----

  function Decoded(s: Text): Text {
    if s == [] then [] else Decoded(s[..|s| - 1]) + OfByte(s[|s| - 1])
  }

  predicate Ascii(s: Text) {
    forall i :: 0 <= i < |s| ==> s[i] < 128
  }

  /** A text survives the conversion of its bytes exactly when it is ASCII. */
  lemma {:induction false} DecodedExactlyAscii(s: Text)
    ensures |Decoded(s)| >= |s|
    ensures Decoded(s) == s <==> Ascii(s)
    ensures !Ascii(s) ==> |Decoded(s)| > |s|
  {
    if s != [] {
      var init, last := s[..|s| - 1], s[|s| - 1];
      DecodedExactlyAscii(init);
      assert s == init + [last];
      assert Ascii(s) <==> Ascii(init) && last < 128;
      assert |Decoded(s)| == |Decoded(init)| + |OfByte(last)|;
      hide Ascii;
    }
  }

  lemma {:induction false} SplitPart(s: Text, i: nat, depth: int, current: Text, parts: seq<Text>, p: Text)
    requires depth >= 1 && Scan(p, depth) >= 1 && i + |p| < |s| && s[i + 1..i + 1 + |p|] == p
    ensures Split(s, i, depth, current, parts) == Split(s, i + |p|, Scan(p, depth), current + Decoded(p), parts)
    decreases |p|
  {
    if p == [] {
      assert current + Decoded(p) == current;
    } else {
      var init, c := p[..|p| - 1], p[|p| - 1];
      assert s[i + 1..i + |p|] == s[i + 1..i + 1 + |p|][..|p| - 1];
      assert s[i + |p|] == s[i + 1..i + 1 + |p|][|p| - 1];
      SplitPart(s, i, depth, current, parts, init);
      assert current + Decoded(init) + OfByte(c) == current + Decoded(p);
    }
  }

  function JoinTexts(texts: seq<Text>): Text {
    if texts == [] then []
    else (if |texts| == 1 then [] else JoinTexts(texts[..|texts| - 1]) + [DASH]) + texts[|texts| - 1]
  }

  function DecodedAll(texts: seq<Text>): (r: seq<Text>)
    ensures |r| == |texts| && forall i :: 0 <= i < |r| ==> r[i] == Decoded(texts[i])
  {
    if texts == [] then [] else DecodedAll(texts[..|texts| - 1]) + [Decoded(texts[|texts| - 1])]
  }

  ghost predicate Closed(texts: seq<Text>) {
    forall i :: 0 <= i < |texts| ==> Scan(texts[i], 1) == 1
  }

  lemma ThreeSlices(s: Text, i: nat, a: Text, b: Text)
    requires i + 1 + |a| + |b| < |s| && s[i + 1..i + 2 + |a| + |b|] == a + [DASH] + b
    ensures s[i + 1..i + 1 + |a|] == a && s[i + 1 + |a|] == DASH && s[i + 2 + |a|..i + 2 + |a| + |b|] == b
  {
    var t := s[i + 1..i + 2 + |a| + |b|];
    assert s[i + 1..i + 1 + |a|] == t[..|a|] && s[i + 1 + |a|] == t[|a|];
    assert s[i + 2 + |a|..i + 2 + |a| + |b|] == t[|a| + 1..];
  }

  lemma SplitDash(s: Text, i: nat, current: Text, parts: seq<Text>)
    requires i + 1 < |s| && s[i + 1] == DASH
    ensures Split(s, i, 1, current, parts) == Split(s, i + 1, 1, [], parts + [current])
  {
  }

  lemma {:induction false} SplitTexts(s: Text, i: nat, texts: seq<Text>)
    requires texts != [] && Closed(texts)
    requires i + |JoinTexts(texts)| < |s| && s[i + 1..i + 1 + |JoinTexts(texts)|] == JoinTexts(texts)
    ensures Split(s, i, 1, [], [])
         == Split(s, i + |JoinTexts(texts)|, 1, Decoded(texts[|texts| - 1]), DecodedAll(texts[..|texts| - 1]))
    decreases |texts|
  {
    hide Scan, Split, Decoded;
    var init, last := texts[..|texts| - 1], texts[|texts| - 1];
    var j := JoinTexts(texts);
    if init == [] {
      assert j == last;
      SplitPart(s, i, 1, [], [], last);
      assert [] + Decoded(last) == Decoded(last);
    } else {
      var n := |JoinTexts(init)|;
      ThreeSlices(s, i, JoinTexts(init), last);
      SplitTexts(s, i, init);
      SplitDash(s, i + n, Decoded(init[|init| - 1]), DecodedAll(init[..|init| - 1]));
      assert DecodedAll(init[..|init| - 1]) + [Decoded(init[|init| - 1])] == DecodedAll(init);
      SplitPart(s, i + n + 1, 1, [], DecodedAll(init), last);
      assert [] + Decoded(last) == Decoded(last);
    }
  }

  lemma Bracketed(before: Text, open: byte, j: Text, close: byte, after: Text)
    ensures var s := before + ([open] + j + [close]) + after;
            && |s| > |before| + 1 + |j| && s[|before| + 1..|before| + 1 + |j|] == j && s[|before| + 1 + |j|] == close
  {
  }

  lemma SplitClose(s: Text, i: nat, current: Text, parts: seq<Text>)
    requires i + 1 < |s| && (s[i + 1] == CLOSE_STRUCT || s[i + 1] == CLOSE_MAP)
    ensures Split(s, i, 1, current, parts) == (parts + [current], i + 1)
  {
  }

  /** Closed texts between brackets are split into just those texts, up to the matching bracket. */
  lemma SplitBracketed(before: Text, open: byte, texts: seq<Text>, close: byte, after: Text)
    requires texts != [] && Closed(texts) && (close == CLOSE_STRUCT || close == CLOSE_MAP)
    ensures var s := before + ([open] + JoinTexts(texts) + [close]) + after;
            Split(s, |before|, 1, [], []) == (DecodedAll(texts), |before| + |JoinTexts(texts)| + 1)
  {
    hide Scan, Decoded, JoinTexts, Split;
    var j := JoinTexts(texts);
    var s := before + ([open] + j + [close]) + after;
    Bracketed(before, open, j, close, after);
    SplitTexts(s, |before|, texts);
    SplitClose(s, |before| + |j|, Decoded(texts[|texts| - 1]), DecodedAll(texts[..|texts| - 1]));
    assert DecodedAll(texts[..|texts| - 1]) + [Decoded(texts[|texts| - 1])] == DecodedAll(texts);
  }

  // ----- splitting inverts printing -----

  function TextsOf(fs: seq<Field>): (r: seq<Text>)
    requires forall i :: 0 <= i < |fs| ==> Built(fs[i])
    ensures |r| == |fs| && forall i :: 0 <= i < |r| ==> r[i] == FieldText(fs[i])
  {
    seq(|fs|, i requires 0 <= i < |fs| => FieldText(fs[i]))
  }

  lemma {:induction false} JoinedTexts(fs: seq<Field>)
    requires forall i :: 0 <= i < |fs| ==> Built(fs[i])
    ensures Joined(fs) == JoinTexts(TextsOf(fs))
  {
    hide FieldText;
    if |fs| > 1 {
      JoinedTexts(fs[..|fs| - 1]);
      assert TextsOf(fs)[..|fs| - 1] == TextsOf(fs[..|fs| - 1]);
    }
  }

  /** Between the brackets of a struct without fields there is one empty text. */
  function TextsOrNone(fs: seq<Field>): (r: seq<Text>)
    requires forall i :: 0 <= i < |fs| ==> Built(fs[i])
  {
    if fs == [] then [[]] else TextsOf(fs)
  }

  lemma JoinedTextsOrNone(fs: seq<Field>)
    requires forall i :: 0 <= i < |fs| ==> Built(fs[i])
    ensures Joined(fs) == JoinTexts(TextsOrNone(fs)) && TextsOrNone(fs) != []
  {
    JoinedTexts(fs);
    assert JoinTexts([[]]) == [];
  }

  lemma TextsAreClosed(fs: seq<Field>)
    requires forall i :: 0 <= i < |fs| ==> Built(fs[i]) && Neat(fs[i])
    ensures Closed(TextsOrNone(fs))
  {
    assert Scan([], 1) == 1;
    hide FieldText, Scan;
    forall i | 0 <= i < |fs|
      ensures Scan(TextsOf(fs)[i], 1) == 1
    {
      FieldTextIsClosed(fs[i], 1);
    }
  }

  /**
   Wherever a struct is printed, splitting at its bracket returns the index of its closing bracket and the texts of its
   fields, unchanged exactly when it has any and they are ASCII.
   */
  lemma StructSplits(f: Field, before: Text, after: Text)
    requires Valid(f) && f.isStruct
    ensures var open := |before| + if f.isSlice then 2 else 0;
            var (parts, end) := Split(before + Print(f) + after, open, 1, [], []);
            && end == |before| + |Print(f)| - 1
            && parts == DecodedAll(TextsOrNone(f.fields))
            && (parts == TextsOf(f.fields) <==>
                f.fields != [] && forall i :: 0 <= i < |f.fields| ==> Ascii(TextsOf(f.fields)[i]))
  {
    hide Print, FieldText, Scan, Split, Decoded, JoinTexts, Joined, TextsOrNone;
    var texts := TextsOrNone(f.fields);
    var slice := if f.isSlice then SLICE else [];
    PrintWithFields(f);
    JoinedTextsOrNone(f.fields);
    TextsAreClosed(f.fields);
    SplitBracketed(before + slice, OPEN_STRUCT, texts, CLOSE_STRUCT, after);
    assert before + Print(f) + after == (before + slice) + ([OPEN_STRUCT] + JoinTexts(texts) + [CLOSE_STRUCT]) + after;
    DecodedTexts(f.fields);
  }

  lemma DecodedTexts(fs: seq<Field>)
    requires forall i :: 0 <= i < |fs| ==> Built(fs[i])
    ensures DecodedAll(TextsOrNone(fs)) == TextsOf(fs) <==>
            fs != [] && forall i :: 0 <= i < |fs| ==> Ascii(TextsOf(fs)[i])
  {
    hide FieldText, Decoded;
    var texts := TextsOf(fs);
    forall i | 0 <= i < |fs|
      ensures Decoded(texts[i]) == texts[i] <==> Ascii(texts[i])
    {
      DecodedExactlyAscii(texts[i]);
    }
    if fs != [] && DecodedAll(texts) == texts {
      assert forall i :: 0 <= i < |texts| ==> Decoded(texts[i]) == DecodedAll(texts)[i];
    }
  }

  /** What a printed field falls into at its own level: a map printed without brackets falls into two. */
  function Pieces(f: Field): seq<Text>
    requires Built(f)
  {
    if f.isMap then [Start(f) + FieldText(f.fields[0]), FieldText(f.fields[1])] else [Print(f)]
  }

  lemma JoinOne(a: Text)
    ensures JoinTexts([a]) == a
  {
  }

  lemma JoinTwo(a: Text, b: Text)
    ensures JoinTexts([a, b]) == a + [DASH] + b
  {
    JoinOne(a);
    assert [a, b][..1] == [a];
  }

  lemma PiecesOfPrint(f: Field)
    requires Valid(f)
    ensures Closed(Pieces(f)) && JoinTexts(Pieces(f)) == Print(f)
  {
    hide Print, FieldText, Scan, Joined, JoinTexts;
    if f.isMap {
      PiecesAreClosed(f);
      PiecesJoin(f);
    } else {
      JoinOne(Print(f));
      PrintIsClosed(f, 1);
    }
  }

  lemma PiecesAreClosed(f: Field)
    requires Valid(f) && f.isMap
    ensures Closed(Pieces(f))
  {
    hide FieldText, Scan;
    ScanPlain(Start(f), 1);
    FieldTextIsClosed(f.fields[0], 1);
    FieldTextIsClosed(f.fields[1], 1);
    ScanJoin(Start(f), FieldText(f.fields[0]), 1);
  }

  lemma PiecesJoin(f: Field)
    requires Built(f) && f.isMap
    ensures JoinTexts(Pieces(f)) == Print(f)
  {
    hide Print, FieldText, Joined, JoinTexts, Start;
    var fs := f.fields;
    PrintWithFields(f);
    JoinedTexts(fs);
    assert TextsOf(fs) == [FieldText(fs[0]), FieldText(fs[1])];
    JoinTwo(FieldText(fs[0]), FieldText(fs[1]));
    JoinTwo(Start(f) + FieldText(fs[0]), FieldText(fs[1]));
  }

  lemma JoinLast(texts: seq<Text>)
    requires texts != []
    ensures var init, last := texts[..|texts| - 1], texts[|texts| - 1];
            JoinTexts(texts) == if init == [] then last else JoinTexts(init) + [DASH] + last
  {
    assert [] + texts[|texts| - 1] == texts[|texts| - 1];
  }

  lemma {:induction false} JoinBoth(a: seq<Text>, b: seq<Text>)
    requires a != [] && b != []
    ensures JoinTexts(a + b) == JoinTexts(a) + [DASH] + JoinTexts(b)
    decreases |b|
  {
    var all := a + b;
    var init, last := b[..|b| - 1], b[|b| - 1];
    assert all[..|all| - 1] == a + init && all[|all| - 1] == last;
    JoinLast(all);
    JoinLast(b);
    hide JoinTexts;
    if init == [] {
      assert a + init == a;
    } else {
      JoinBoth(a, init);
      assert JoinTexts(a) + [DASH] + JoinTexts(init) + [DASH] + last == JoinTexts(a) + [DASH] + (JoinTexts(init) + [DASH] + last);
    }
  }

  /** Splitting a printed map returns its key and its value exactly when neither of them is a map itself. */
  lemma MapSplits(m: Field, before: Text, after: Text)
    requires Valid(m) && m.isMap
    ensures var k, v := m.fields[0], m.fields[1];
            var s := before + ([OPEN_MAP] + Print(k) + [DASH] + Print(v) + [CLOSE_MAP]) + after;
            var (parts, end) := Split(s, |before|, 1, [], []);
            && end == |before| + |Print(k)| + |Print(v)| + 2
            && parts == DecodedAll(Pieces(k) + Pieces(v))
            && (parts == DecodedAll([Print(k), Print(v)]) <==> !k.isMap && !v.isMap)
  {
    hide Print, FieldText, Scan, Split, Decoded, JoinTexts;
    var k, v := m.fields[0], m.fields[1];
    PiecesOfPrint(k);
    PiecesOfPrint(v);
    JoinBoth(Pieces(k), Pieces(v));
    SplitBracketed(before, OPEN_MAP, Pieces(k) + Pieces(v), CLOSE_MAP, after);
    assert [OPEN_MAP] + Print(k) + [DASH] + Print(v) + [CLOSE_MAP]
        == [OPEN_MAP] + (Print(k) + [DASH] + Print(v)) + [CLOSE_MAP];
    if !k.isMap && !v.isMap {
      assert Pieces(k) + Pieces(v) == [Print(k), Print(v)];
    }
  }
}
