/** What CJSON_NESTING_LIMIT costs: exactly the texts that nest deeper are not read back. */
module JsonNesting {
  import opened JsonText
  import opened JsonRoundTrip
  import opened JsonDocument

  lemma ElementFails(k: Libc, c: bytes, o: nat, depth: nat)
    requires o < |c| && ParseValue(k, c, SkipWhitespace(c, o + 1), depth) == Err
    ensures ParseElements(k, c, o, depth) == Err
  {
  }

  lemma NextElementFails(k: Libc, c: bytes, o: nat, depth: nat, item: Item, e: nat)
    requires o < |c| && ParseValue(k, c, SkipWhitespace(c, o + 1), depth) == Ok(item, e)
    requires e < |c| && c[e] == ',' as int && ParseElements(k, c, e, depth) == Err
    ensures ParseElements(k, c, o, depth) == Err
  {
    SkipsTo(c, e, e);
  }

  /** One turn of parse_object's loop whose value is not read. */
  lemma MemberFails(k: Libc, c: bytes, o: nat, depth: nat, key: bytes, q: nat, colon: nat, v: nat)
    requires o + 1 < |c| && SkipWhitespace(c, o + 1) == q && ParseString(c, q) == Ok(key, colon)
    requires colon < |c| && c[colon] == ':' as int && SkipWhitespace(c, colon + 1) == v
    requires ParseValue(k, c, v, depth) == Err
    ensures ParseMembers(k, c, o, depth) == Err
  {
    SkipsTo(c, colon, colon);
  }

  /** A text in any style that nests deeper than the limit leaves at `depth` is refused. */
  lemma {:induction false} DeepValue(
    k: Libc, c: bytes, o: nat, f: Style, item: Item, column: nat, spaced: bool, depth: nat, levels: int)
    requires ReadsInts(k) && depth <= NESTING_LIMIT && Printable(item, levels)
      && !Printable(item, NESTING_LIMIT - depth)
    requires At(c, o, Styled(k, f, item, column, spaced))
    ensures ParseValue(k, c, o, depth) == Err
    decreases item, 2
  {
    if item.Array? {
      DeepArray(k, c, o, f, item, column, spaced, depth, levels);
    } else {
      DeepObject(k, c, o, f, item, column, spaced, depth, levels);
    }
  }

  lemma {:induction false} DeepArray(
    k: Libc, c: bytes, o: nat, f: Style, item: Item, column: nat, spaced: bool, depth: nat, levels: int)
    requires ReadsInts(k) && depth <= NESTING_LIMIT && Printable(item, levels)
      && !Printable(item, NESTING_LIMIT - depth)
    requires item.Array? && At(c, o, Styled(k, f, item, column, spaced))
    ensures ParseValue(k, c, o, depth) == Err
    decreases item, 1
  {
    hide At, Styled, StyledItems, ParseValue, ParseElements, SkipWhitespace;
    ArrayParts(k, c, o, f, item, column, spaced);
    Dispatch(k, c, o, depth);
    if depth < NESTING_LIMIT {
      ItemsTextStarts(k, c, o + 1, f, item.items, column + 1, spaced, levels - 1);
      SkipsTo(c, o + 1, o + 1);
      DeepElements(k, c, o, o + 1, f, item.items, column + 1, spaced, depth + 1, levels - 1);
    }
  }

  lemma {:induction false} DeepElements(
    k: Libc, c: bytes, o: nat, s: nat, f: Style, items: seq<Item>, column: nat, spaced: bool, depth: nat, levels: int)
    requires ReadsInts(k) && depth <= NESTING_LIMIT
    requires PrintableItems(items, levels) && !PrintableItems(items, NESTING_LIMIT - depth)
    requires o < |c| && s == SkipWhitespace(c, o + 1)
    requires At(c, s, StyledItems(k, f, items, column, spaced))
    ensures ParseElements(k, c, o, depth) == Err
    decreases items, 0
  {
    hide At, Styled, StyledItems, ParseValue, ParseElements, SkipWhitespace;
    ElementParts(k, c, s, f, items, column, spaced);
    if !Printable(items[0], NESTING_LIMIT - depth) {
      DeepValue(k, c, s, f, items[0], column, spaced, depth, levels);
      ElementFails(k, c, o, depth);
    } else {
      var e, next := s + |Styled(k, f, items[0], column, spaced)|, After(f, items[0], spaced);
      var n := e + |Separator(next)|;
      ItemsTextStarts(k, c, n, f, items[1..], column, next, levels);
      AfterSeparator(c, e, next);
      StyledRoundTrip(k, c, s, f, items[0], column, spaced, depth);
      DeepElements(k, c, e, n, f, items[1..], column, next, depth, levels);
      NextElementFails(k, c, o, depth, items[0], e);
    }
  }

  lemma {:induction false} DeepObject(
    k: Libc, c: bytes, o: nat, f: Style, item: Item, column: nat, spaced: bool, depth: nat, levels: int)
    requires ReadsInts(k) && depth <= NESTING_LIMIT && Printable(item, levels)
      && !Printable(item, NESTING_LIMIT - depth)
    requires item.Object? && At(c, o, Styled(k, f, item, column, spaced))
    ensures ParseValue(k, c, o, depth) == Err
    decreases item, 1
  {
    hide At, Styled, StyledMembers, Indent, AfterMembers, ParseValue, ParseMembers, SkipWhitespace;
    ObjectParts(k, c, o, f, item, column, spaced);
    Dispatch(k, c, o, depth);
    if depth < NESTING_LIMIT {
      var s := o + |Brace(spaced)|;
      var q := s + |Indent(column + 1, spaced)|;
      MembersStart(k, c, s, f, item.members, column + 1, spaced);
      SkipsTo(c, o + 1, q);
      SkipsTo(c, q, q);
      DeepMembers(k, c, q - 1, s, f, item.members, column + 1, spaced, depth + 1, levels - 1);
    }
  }

  lemma {:induction false} DeepMember(
    k: Libc, c: bytes, o: nat, s: nat, f: Style, m: Member, last: bool, column: nat, spaced: bool, depth: nat,
    levels: int)
    requires ReadsInts(k) && depth <= NESTING_LIMIT && NulFree(m.key)
    requires Printable(m.item, levels) && !Printable(m.item, NESTING_LIMIT - depth)
    requires At(c, s, StyledMember(k, f, m, last, column, spaced))
    requires o + 1 < |c| && SkipWhitespace(c, o + 1) == s + |Indent(column, spaced)|
    ensures ParseMembers(k, c, o, depth) == Err
    decreases m, 3
  {
    hide At, Styled, StyledMember, Indent, Quoted, ParseValue, ParseMembers, ParseString, SkipWhitespace, Printable;
    MemberParts(k, c, s, f, m, last, column, spaced);
    var inside := f(m.key, spaced);
    var q := s + |Indent(column, spaced)|;
    var colon := q + |Quoted(m.key)|;
    var v := colon + |Colon(inside)|;
    StringRoundTrip(c, q, m.key);
    TextAt(k, c, v, f, m.item, column, inside, levels);
    SkipsTo(c, colon + 1, v);
    DeepValue(k, c, v, f, m.item, column, inside, depth, levels);
    MemberFails(k, c, o, depth, m.key, q, colon, v);
  }

  lemma {:induction false} DeepMembers(
    k: Libc, c: bytes, o: nat, s: nat, f: Style, members: seq<Member>, column: nat, spaced: bool, depth: nat,
    levels: int)
    requires ReadsInts(k) && depth <= NESTING_LIMIT
    requires PrintableMembers(members, levels) && !PrintableMembers(members, NESTING_LIMIT - depth)
    requires At(c, s, StyledMembers(k, f, members, column, spaced))
    requires o + 1 < |c| && SkipWhitespace(c, o + 1) == s + |Indent(column, spaced)|
    ensures ParseMembers(k, c, o, depth) == Err
    decreases members, 0
  {
    hide At, Styled, StyledMember, StyledMembers, Indent, ParseMembers, SkipWhitespace, Printable;
    var m, last, next := members[0], |members| == 1, AfterMember(f, members[0], spaced);
    MembersParts(k, c, s, f, members, column, spaced);
    if !Printable(m.item, NESTING_LIMIT - depth) {
      DeepMember(k, c, o, s, f, m, last, column, spaced, depth, levels);
    } else {
      var e, n := MemberRoundTrip(k, c, o, s, f, m, last, column, spaced, depth);
      SkipsTo(c, e, e);
      MembersStart(k, c, n, f, members[1..], column, next);
      SkipsTo(c, e + 1, n + |Indent(column, next)|);
      DeepMembers(k, c, e, n, f, members[1..], column, next, depth, levels);
    }
  }

  /**
   * An item of int-range numbers and strings without a NUL byte, nested `levels` deep for any `levels`:
   * its text reads back exactly if it nests at most CJSON_NESTING_LIMIT deep, and is refused otherwise.
   */
  lemma ReadsBackUpToTheLimit(k: Libc, item: Item, format: bool, requireNul: bool, levels: int)
    requires ReadsInts(k) && Printable(item, levels)
    ensures var text := ItemText(k, item, format, 0);
      ParseDocument(k, text + [0], requireNul) == if Printable(item, 1000) then Ok(item, |text|) else Err
  {
    hide ParseValue, ItemText, At, SkipWhitespace, AfterBom;
    var text := ItemText(k, item, format, 0);
    assert Mark(false) + [] + text == text;
    assert text + [] + [0] == text + [0];
    if Printable(item, NESTING_LIMIT) {
      TerminatedRoundTrip(k, item, format, requireNul);
    } else {
      TextFirst(k, item, format, 0, levels);
      Layout(false, [], text, [], text + [0]);
      PrintedIsUniform(k, item, 0, format);
      DeepValue(k, text + [0], 0, Uniform, item, 0, format, 0, levels);
    }
  }

  // ---- What was parsed nests within the limit ----

  lemma {:induction false} ParsedIsShallow(k: Libc, c: bytes, o: nat, depth: nat, levels: int)
    requires depth <= NESTING_LIMIT && ParseValue(k, c, o, depth).Ok?
      && Printable(ParseValue(k, c, o, depth).value, levels)
    ensures Printable(ParseValue(k, c, o, depth).value, NESTING_LIMIT - depth)
    decreases if o < |c| then |c| - o else 0, 3
  {
    hide ParseElements, ParseMembers, SkipWhitespace, ParseString, At, NulFree;
    var item := ParseValue(k, c, o, depth).value;
    if item.Array? {
      ArrayIsShallow(k, c, o, depth, levels);
    } else if item.Object? {
      ObjectIsShallow(k, c, o, depth, levels);
    }
  }

  lemma {:induction false} ArrayIsShallow(k: Libc, c: bytes, o: nat, depth: nat, levels: int)
    requires depth <= NESTING_LIMIT && o < |c|
    requires ParseArray(k, c, o, depth).Ok? && Printable(ParseArray(k, c, o, depth).value, levels)
    ensures Printable(ParseArray(k, c, o, depth).value, NESTING_LIMIT - depth)
    decreases |c| - o, 2
  {
    hide ParseElements, SkipWhitespace;
    var p := SkipWhitespace(c, o + 1);
    if c[p] != ']' as int {
      ElementsAreShallow(k, c, p - 1, depth + 1, levels - 1);
    }
  }

  lemma {:induction false} ElementsAreShallow(k: Libc, c: bytes, o: nat, depth: nat, levels: int)
    requires depth <= NESTING_LIMIT && o < |c|
    requires ParseElements(k, c, o, depth).Ok? && PrintableItems(ParseElements(k, c, o, depth).value, levels)
    ensures PrintableItems(ParseElements(k, c, o, depth).value, NESTING_LIMIT - depth)
    decreases |c| - o, 1
  {
    hide ParseValue, Printable, SkipWhitespace;
    var s := SkipWhitespace(c, o + 1);
    var r := ParseValue(k, c, s, depth);
    var p := SkipWhitespace(c, r.offset);
    ParsedIsShallow(k, c, s, depth, levels);
    if c[p] == ',' as int {
      var rest := ParseElements(k, c, p, depth).value;
      assert ([r.value] + rest)[1..] == rest;
      ElementsAreShallow(k, c, p, depth, levels);
    }
  }

  lemma {:induction false} ObjectIsShallow(k: Libc, c: bytes, o: nat, depth: nat, levels: int)
    requires depth <= NESTING_LIMIT && o < |c|
    requires ParseObject(k, c, o, depth).Ok? && Printable(ParseObject(k, c, o, depth).value, levels)
    ensures Printable(ParseObject(k, c, o, depth).value, NESTING_LIMIT - depth)
    decreases |c| - o, 2
  {
    hide ParseMembers, SkipWhitespace;
    var p := SkipWhitespace(c, o + 1);
    if c[p] != '}' as int {
      MembersAreShallow(k, c, p - 1, depth + 1, levels - 1);
    }
  }

  lemma {:induction false} MembersAreShallow(k: Libc, c: bytes, o: nat, depth: nat, levels: int)
    requires depth <= NESTING_LIMIT && o < |c|
    requires ParseMembers(k, c, o, depth).Ok? && PrintableMembers(ParseMembers(k, c, o, depth).value, levels)
    ensures PrintableMembers(ParseMembers(k, c, o, depth).value, NESTING_LIMIT - depth)
    decreases |c| - o, 1
  {
    hide ParseValue, ParseString, Printable, SkipWhitespace, NulFree;
    var key := ParseString(c, SkipWhitespace(c, o + 1));
    var s := SkipWhitespace(c, SkipWhitespace(c, key.offset) + 1);
    var r := ParseValue(k, c, s, depth);
    var p := SkipWhitespace(c, r.offset);
    ParsedIsShallow(k, c, s, depth, levels);
    if c[p] == ',' as int {
      var rest := ParseMembers(k, c, p, depth).value;
      assert ([Member(key.value, r.value)] + rest)[1..] == rest;
      MembersAreShallow(k, c, p, depth, levels);
    }
  }

  /**
   * Printing is a normal form: whatever text an item was parsed from, blanks and escapes of any kind included, if the
   * item has only int-range numbers and strings without a NUL byte, then its printed text parses to the same item.
   */
  lemma ParsedPrintsAndReparses(k: Libc, c: bytes, first: bool, format: bool, second: bool, levels: int)
    requires ReadsInts(k) && ParseDocument(k, c, first).Ok? && Printable(ParseDocument(k, c, first).value, levels)
    ensures var item := ParseDocument(k, c, first).value;
      var text := ItemText(k, item, format, 0);
      ParseDocument(k, text + [0], second) == Ok(item, |text|)
  {
    hide ParseValue, ItemText, Printable, SkipWhitespace, AfterBom;
    var item := ParseDocument(k, c, first).value;
    ParsedIsShallow(k, c, SkipWhitespace(c, AfterBom(c)), 0, levels);
    ReadsBackUpToTheLimit(k, item, format, second, levels);
  }
}
