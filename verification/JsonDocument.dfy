/** Whole JSON texts: cJSON_ParseWithLengthOpts and cJSON_ParseWithOpts of cJSON.c. */
module JsonDocument {
  import opened JsonText
  import opened JsonRoundTrip
  import JsonParser

  const BOM: bytes := [0xEF, 0xBB, 0xBF]

  /** skip_utf8_bom: the mark is only seen when the buffer holds five bytes at least. */
  function AfterBom(c: bytes): (o: nat)
    ensures o == 0 || (o == 3 && 4 < |c| && BOM <= c)
  {
    if 4 < |c| && c[..3] == BOM then 3 else 0
  }

  /** The value of a whole buffer and where it ends, after trailing blanks if a NUL byte has to follow. */
  function ParseDocument(k: Libc, c: bytes, requireNul: bool): (r: Parsed<Item>)
    ensures r.Ok? ==> 0 < r.offset <= |c| && (requireNul ==> r.offset < |c| && c[r.offset] == 0)
  {
    if c == [] then Err
    else match ParseValue(k, c, SkipWhitespace(c, AfterBom(c)), 0)
      case Err => Err
      case Ok(item, e) =>
        var p := SkipWhitespace(c, e);
        if !requireNul then Ok(item, e)
        else if p < |c| && c[p] == 0 then Ok(item, p)
        else Err
  }

  /** cJSON_ParseWithLengthOpts */
  method ParseWithLengthOpts(lib: Libc, value: bytes, requireNul: bool) returns (r: Parsed<Item>)
    ensures r == ParseDocument(lib, value, requireNul)
  {
    hide ParseValue, SkipWhitespace;
    if |value| == 0 {
      return Err;
    }
    var p := new JsonParser.ParseBuffer(value, lib);
    if 4 < |value| && value[..3] == BOM {
      p.offset := p.offset + 3;
    }
    p.SkipWhite();
    var ok, item := p.ReadValue();
    if !ok {
      return Err;
    }
    if requireNul {
      p.SkipWhite();
      if p.offset >= |value| || value[p.offset] != 0 {
        return Err;
      }
    }
    return Ok(item, p.offset);
  }

  /** cJSON_ParseWithOpts: the text is a C string, and its terminator is part of the buffer. */
  method ParseWithOpts(lib: Libc, text: bytes, requireNul: bool) returns (r: Parsed<Item>)
    requires NulFree(text)
    ensures r == ParseDocument(lib, text + [0], requireNul)
  {
    r := ParseWithLengthOpts(lib, text + [0], requireNul);
  }

  // ---- What may follow a value ----

  /** Nothing but blanks from `e` on. */
  predicate BlankFrom(t: bytes, e: nat) {
    forall i :: e <= i < |t| ==> t[i] <= 32
  }

  lemma {:induction false} BlanksToEnd(text: bytes, e: nat)
    requires NulFree(text) && e <= |text|
    ensures var p := SkipWhitespace(text + [0], e);
      p <= |text| && (p == |text| <==> BlankFrom(text, e)) && (p == |text| <==> (text + [0])[p] == 0)
    decreases |text| - e
  {
    if e < |text| {
      BlanksToEnd(text, e + 1);
      assert (text + [0])[e] == text[e];
    }
  }

  lemma {:induction false} ElementsEnd(k: Libc, c: bytes, o: nat, depth: nat)
    requires o < |c| && ParseElements(k, c, o, depth).Ok?
    ensures c[ParseElements(k, c, o, depth).offset - 1] == ']' as int
    decreases |c| - o
  {
    hide ParseValue;
    var p := SkipWhitespace(c, ParseValue(k, c, SkipWhitespace(c, o + 1), depth).offset);
    if c[p] == ',' as int {
      ElementsEnd(k, c, p, depth);
    }
  }

  lemma {:induction false} MembersEnd(k: Libc, c: bytes, o: nat, depth: nat)
    requires o < |c| && ParseMembers(k, c, o, depth).Ok?
    ensures c[ParseMembers(k, c, o, depth).offset - 1] == '}' as int
    decreases |c| - o
  {
    hide ParseValue, ParseString;
    var colon := SkipWhitespace(c, ParseString(c, SkipWhitespace(c, o + 1)).offset);
    var p := SkipWhitespace(c, ParseValue(k, c, SkipWhitespace(c, colon + 1), depth).offset);
    if c[p] == ',' as int {
      MembersEnd(k, c, p, depth);
    }
  }

  /** The last byte of a value is never a NUL byte. */
  lemma ValueEnd(k: Libc, c: bytes, o: nat, depth: nat)
    requires ParseValue(k, c, o, depth).Ok?
    ensures c[ParseValue(k, c, o, depth).offset - 1] != 0
  {
    hide ParseElements, ParseMembers, ScanEnd, DecodeAll, SkipWhitespace;
    KeywordRoundTrip(k, c, o, depth);
    var e := ParseValue(k, c, o, depth).offset;
    if At(c, o, Ascii("null")) {
      assert c[o + 3] == Ascii("null")[3];
    } else if At(c, o, Ascii("false")) {
      assert c[o + 4] == Ascii("false")[4];
    } else if At(c, o, Ascii("true")) {
      assert c[o + 3] == Ascii("true")[3];
    } else if c[o] == '[' as int {
      var p := SkipWhitespace(c, o + 1);
      if c[p] != ']' as int {
        ElementsEnd(k, c, p - 1, depth + 1);
      }
    } else if c[o] == '{' as int {
      var p := SkipWhitespace(c, o + 1);
      if c[p] != '}' as int {
        MembersEnd(k, c, p - 1, depth + 1);
      }
    } else if c[o] != QUOTE {
      NumberBytes(c, o);
    }
  }

  /**
   * A C string parses with a terminator required exactly when it parses without and nothing but blanks
   * follows the value; the parser then stops at the terminator.
   */
  lemma NothingFollows(k: Libc, text: bytes)
    requires NulFree(text)
    ensures var whole, open := ParseDocument(k, text + [0], true), ParseDocument(k, text + [0], false);
      && (open.Ok? ==> open.offset <= |text|)
      && whole == if open.Ok? && BlankFrom(text, open.offset) then Ok(open.value, |text|) else Err
  {
    hide ParseValue;
    var c := text + [0];
    var s := SkipWhitespace(c, AfterBom(c));
    match ParseValue(k, c, s, 0)
    case Err =>
    case Ok(item, e) =>
      ValueEnd(k, c, s, 0);
      BlanksToEnd(text, e);
  }

  // ---- A printed document reads back ----

  lemma TextFirst(k: Libc, item: Item, format: bool, column: nat, levels: int)
    requires Printable(item, levels)
    ensures var t := ItemText(k, item, format, column); |t| > 0 && 32 < t[0] < 128 && t[0] != '/' as int
  {
  }

  lemma NoMark(c: bytes, o: nat)
    requires o < |c| && c[o] == 0xEF
    ensures forall k, depth :: ParseValue(k, c, o, depth) == Err
  {
    NotKeyword(c, o);
  }

  /** The byte order mark, or none. */
  function Mark(bom: bool): bytes {
    if bom then [0xEF, 0xBB, 0xBF] else []
  }

  /** Where the pieces of a document stand. */
  lemma Layout(bom: bool, before: bytes, text: bytes, after: bytes, c: bytes)
    requires BlankFrom(before, 0) && BlankFrom(after, 0) && text != [] && 32 < text[0] < 128
    requires c == Mark(bom) + before + text + after + [0]
    ensures var s, o := |Mark(bom)|, |Mark(bom) + before|;
      && AfterBom(c) == s && SkipWhitespace(c, s) == o && At(c, o, text)
      && forall i :: o + |text| <= i < |c| ==> c[i] <= 32
  {
    var mark := Mark(bom);
    var s, o, e := |mark|, |mark + before|, |mark + before + text|;
    assert c[..s] == mark;
    assert before != [] ==> c[s] == before[0];
    assert c[o] == text[0];
    assert c[s..o] == before && c[o..e] == text && c[e..] == after + [0];
    forall i | s <= i < o
      ensures c[i] <= 32
    {
      assert c[i] == before[i - s];
    }
    SkipsTo(c, s, o);
    AtSlice(c, o, e);
    forall i | e <= i < |c|
      ensures c[i] <= 32
    {
      assert c[i] == (after + [0])[i - e];
    }
  }

  /**
   * What was printed, formatted or not, after a byte order mark or none, between any blanks, and terminated, parses to
   * the item it was printed from, up to the end of the printed text or, if required, up to the terminator.
   */
  lemma DocumentRoundTrip(k: Libc, item: Item, format: bool, requireNul: bool, bom: bool, before: bytes, after: bytes)
    requires ReadsInts(k) && Printable(item, NESTING_LIMIT) && BlankFrom(before, 0) && BlankFrom(after, 0)
    ensures var read := Mark(bom) + before + ItemText(k, item, format, 0);
      ParseDocument(k, read + after + [0], requireNul) == Ok(item, if requireNul then |read + after| else |read|)
  {
    hide ParseValue, ItemText, At, SkipWhitespace, AfterBom;
    var text := ItemText(k, item, format, 0);
    var c := Mark(bom) + before + text + after + [0];
    TextFirst(k, item, format, 0, NESTING_LIMIT);
    Layout(bom, before, text, after, c);
    ValueRoundTrip(k, c, |Mark(bom) + before|, item, format, 0, 0);
    SkipsAll(c, |Mark(bom) + before + text|);
  }

  /** The same for the printed text and its terminator alone. */
  lemma TerminatedRoundTrip(k: Libc, item: Item, format: bool, requireNul: bool)
    requires ReadsInts(k) && Printable(item, NESTING_LIMIT)
    ensures var text := ItemText(k, item, format, 0); ParseDocument(k, text + [0], requireNul) == Ok(item, |text|)
  {
    hide ParseDocument, ItemText;
    var text := ItemText(k, item, format, 0);
    DocumentRoundTrip(k, item, format, requireNul, false, [], []);
    assert Mark(false) + [] + text == text && text + [] == text;
  }

  lemma {:induction false} SkipsAll(c: bytes, o: nat)
    requires o < |c| && forall i :: o <= i < |c| ==> c[i] <= 32
    ensures SkipBlanks(c, o) == |c| && SkipWhitespace(c, o) == |c| - 1
    decreases |c| - o
  {
    if o + 1 < |c| {
      SkipsAll(c, o + 1);
    }
  }

  /**
   * Without a terminator the printed text reads back exactly as well, except that after a byte order mark
   * a text of one byte is not read, because the mark is not skipped in a buffer of four bytes.
   */
  lemma UnterminatedRoundTrip(k: Libc, item: Item, format: bool, bom: bool)
    requires ReadsInts(k) && Printable(item, NESTING_LIMIT)
    ensures var c := Mark(bom) + ItemText(k, item, format, 0);
      ParseDocument(k, c, false) == if bom && |c| == 4 then Err else Ok(item, |c|)
  {
    hide ParseValue, ItemText;
    var mark, text := Mark(bom), ItemText(k, item, format, 0);
    var c := mark + text;
    TextFirst(k, item, format, 0, NESTING_LIMIT);
    assert c[|mark|] == text[0];
    if bom {
      assert c[..3] == BOM;
    } else {
      assert |c| > 4 ==> c[..3][0] == text[0];
    }
    if bom && |c| == 4 {
      SkipsTo(c, 0, 0);
      NoMark(c, 0);
    } else {
      SkipsTo(c, |mark|, |mark|);
      assert At(c, |mark|, text);
      ValueRoundTrip(k, c, |mark|, item, format, 0, 0);
    }
  }
}
