/** The parser of cJSON.c undoes its printer, whichever of the printer's blanks are still there. */
module JsonRoundTrip {
  import opened JsonText

  // ---- Texts with some of the blanks ----

  /** Whether the blanks of the formatted text are there may change behind every string. */
  type Style = (bytes, bool) -> bool

  function After(f: Style, item: Item, spaced: bool): bool
    decreases item, 1
  {
    match item
    case String(s) => f(s, spaced)
    case Array(items) => AfterItems(f, items, spaced)
    case Object(members) => AfterMembers(f, members, spaced)
    case _ => spaced
  }

  function AfterItems(f: Style, items: seq<Item>, spaced: bool): bool
    decreases items, 0
  {
    if items == [] then spaced else AfterItems(f, items[1..], After(f, items[0], spaced))
  }

  function AfterMember(f: Style, m: Member, spaced: bool): bool
    decreases m, 2
  {
    After(f, m.item, f(m.key, spaced))
  }

  function AfterMembers(f: Style, members: seq<Member>, spaced: bool): bool
    decreases members, 0
  {
    if members == [] then spaced else AfterMembers(f, members[1..], AfterMember(f, members[0], spaced))
  }

  function Styled(k: Libc, f: Style, item: Item, column: nat, spaced: bool): bytes
    decreases item, 1
  {
    match item
    case Null => Ascii("null")
    case False => Ascii("false")
    case True => Ascii("true")
    case Number(v) => NumberText(k, v)
    case String(s) => Quoted(s)
    case Array(items) => ['[' as int] + StyledItems(k, f, items, column + 1, spaced) + [']' as int]
    case Object(members) =>
      Brace(spaced) + StyledMembers(k, f, members, column + 1, spaced)
      + Indent(column, AfterMembers(f, members, spaced)) + ['}' as int]
  }

  function StyledItems(k: Libc, f: Style, items: seq<Item>, column: nat, spaced: bool): bytes
    decreases items, 0
  {
    if items == [] then []
    else
      var next := After(f, items[0], spaced);
      Styled(k, f, items[0], column, spaced) + (if |items| > 1 then Separator(next) else [])
      + StyledItems(k, f, items[1..], column, next)
  }

  function StyledMember(k: Libc, f: Style, m: Member, last: bool, column: nat, spaced: bool): bytes
    decreases m, 2
  {
    var inside := f(m.key, spaced);
    Indent(column, spaced) + Quoted(m.key) + Colon(inside) + Styled(k, f, m.item, column, inside)
    + LineEnd(last, After(f, m.item, inside))
  }

  function StyledMembers(k: Libc, f: Style, members: seq<Member>, column: nat, spaced: bool): bytes
    decreases members, 0
  {
    if members == [] then []
    else
      StyledMember(k, f, members[0], |members| == 1, column, spaced)
      + StyledMembers(k, f, members[1..], column, AfterMember(f, members[0], spaced))
  }

  function Brace(spaced: bool): bytes {
    if spaced then ['{' as int, 10] else ['{' as int]
  }

  function Colon(spaced: bool): bytes {
    if spaced then [':' as int, 9] else [':' as int]
  }

  function Indent(column: nat, spaced: bool): (t: bytes)
    ensures |t| == if spaced then column else 0
    ensures forall i :: 0 <= i < |t| ==> t[i] == 9
  {
    if spaced then Tabs(column) else []
  }

  function LineEnd(last: bool, spaced: bool): bytes {
    (if last then [] else [',' as int]) + (if spaced then [10] else [])
  }

  // ---- The printer's own two styles ----

  function Uniform(s: bytes, spaced: bool): bool {
    spaced
  }

  lemma {:induction false} UniformAfter(item: Item, format: bool)
    ensures After(Uniform, item, format) == format
    decreases item, 1
  {
    match item
    case Array(items) => UniformAfterItems(items, format);
    case Object(members) => UniformAfterMembers(members, format);
    case _ =>
  }

  lemma {:induction false} UniformAfterItems(items: seq<Item>, format: bool)
    ensures AfterItems(Uniform, items, format) == format
    decreases items, 0
  {
    if items != [] {
      UniformAfter(items[0], format);
      UniformAfterItems(items[1..], format);
    }
  }

  lemma {:induction false} UniformAfterMembers(members: seq<Member>, format: bool)
    ensures AfterMembers(Uniform, members, format) == format
    decreases members, 0
  {
    if members != [] {
      UniformAfter(members[0].item, format);
      UniformAfterMembers(members[1..], format);
    }
  }

  /** The formatted text has all blanks and the unformatted text none. */
  lemma {:induction false} PrintedIsUniform(k: Libc, item: Item, column: nat, format: bool)
    ensures Styled(k, Uniform, item, column, format) == ItemText(k, item, format, column)
    decreases item, 1
  {
    match item
    case Array(items) => ItemsAreUniform(k, items, column + 1, format);
    case Object(members) =>
      UniformAfterMembers(members, format);
      MembersAreUniform(k, members, column + 1, format);
    case _ =>
  }

  lemma {:induction false} ItemsAreUniform(k: Libc, items: seq<Item>, column: nat, format: bool)
    ensures StyledItems(k, Uniform, items, column, format) == ItemsText(k, items, format, column)
    decreases items, 0
  {
    if items != [] {
      UniformAfter(items[0], format);
      PrintedIsUniform(k, items[0], column, format);
      ItemsAreUniform(k, items[1..], column, format);
    }
  }

  lemma {:induction false} MembersAreUniform(k: Libc, members: seq<Member>, column: nat, format: bool)
    ensures StyledMembers(k, Uniform, members, column, format) == MembersText(k, members, format, column)
    decreases members, 0
  {
    if members != [] {
      UniformAfter(members[0].item, format);
      PrintedIsUniform(k, members[0].item, column, format);
      MembersAreUniform(k, members[1..], column, format);
      OneUniform(k, members[0], |members| == 1, column, format);
    }
  }

  lemma OneUniform(k: Libc, m: Member, last: bool, column: nat, format: bool)
    requires After(Uniform, m.item, format) == format
    requires Styled(k, Uniform, m.item, column, format) == ItemText(k, m.item, format, column)
    ensures StyledMember(k, Uniform, m, last, column, format) == MemberText(k, m, last, format, column)
  {
    hide Styled, ItemText, Quoted;
    var front := Indent(column, format) + Quoted(m.key) + Colon(format) + ItemText(k, m.item, format, column);
    var comma: bytes, newline: bytes := if last then [] else [',' as int], if format then [10] else [];
    assert front + (comma + newline) == front + comma + newline;
  }

  // ---- Numbers, keywords and blanks ----

  lemma {:induction false} NumberRun(c: bytes, o: nat, e: nat)
    requires o <= e <= |c| && Stops(c, e) && forall i :: o <= i < e ==> IsNumberByte(c[i])
    ensures NumberEnd(c, o) == e
    decreases e - o
  {
    if o < e {
      NumberRun(c, o + 1, e);
    }
  }

  lemma {:induction false} NumberBytes(c: bytes, o: nat)
    requires o <= |c|
    ensures forall i :: o <= i < NumberEnd(c, o) ==> IsNumberByte(c[i])
    ensures Stops(c, NumberEnd(c, o))
    decreases |c| - o
  {
    if o < |c| && IsNumberByte(c[o]) {
      NumberBytes(c, o + 1);
    }
  }

  lemma NumberRoundTrip(k: Libc, c: bytes, o: nat, n: int, depth: nat)
    requires ReadsInts(k) && INT_MIN <= n <= INT_MAX && At(c, o, Decimal(n)) && Stops(c, o + |Decimal(n)|)
    ensures ParseValue(k, c, o, depth) == Ok(Number(n as real), o + |Decimal(n)|)
  {
    var t := Decimal(n);
    AtFirst(c, o, t);
    forall i | o <= i < o + |t|
      ensures IsNumberByte(c[i])
    {
      assert c[o + (i - o)] == t[i - o];
    }
    NumberRun(c, o, o + |t|);
    assert c[o..o + |t|] == t;
    NotKeyword(c, o);
  }

  lemma NotKeyword(c: bytes, o: nat)
    requires o < |c| && c[o] !in {'n' as int, 'f' as int, 't' as int}
    ensures !At(c, o, Ascii("null")) && !At(c, o, Ascii("false")) && !At(c, o, Ascii("true"))
  {
    AtFirst(c, o, Ascii("null"));
    AtFirst(c, o, Ascii("false"));
    AtFirst(c, o, Ascii("true"));
  }

  lemma KeywordRoundTrip(k: Libc, c: bytes, o: nat, depth: nat)
    ensures At(c, o, Ascii("null")) ==> ParseValue(k, c, o, depth) == Ok(Null, o + 4)
    ensures At(c, o, Ascii("false")) ==> ParseValue(k, c, o, depth) == Ok(False, o + 5)
    ensures At(c, o, Ascii("true")) ==> ParseValue(k, c, o, depth) == Ok(True, o + 4)
  {
    AtFirst(c, o, Ascii("null"));
    AtFirst(c, o, Ascii("false"));
    AtFirst(c, o, Ascii("true"));
  }

  /** The first byte decides which parser runs. */
  lemma Dispatch(k: Libc, c: bytes, o: nat, depth: nat)
    requires o < |c|
    ensures c[o] == QUOTE && ParseString(c, o).Ok? ==>
      ParseValue(k, c, o, depth) == Ok(String(ParseString(c, o).value), ParseString(c, o).offset)
    ensures c[o] == '[' as int ==> ParseValue(k, c, o, depth) == ParseArray(k, c, o, depth)
    ensures c[o] == '{' as int ==> ParseValue(k, c, o, depth) == ParseObject(k, c, o, depth)
  {
    if c[o] in {QUOTE, '[' as int, '{' as int} {
      NotKeyword(c, o);
    }
  }

  /** Skipping the blanks that the printer writes between tokens. */
  lemma {:induction false} SkipsTo(c: bytes, o: nat, p: nat)
    requires o <= p < |c| && c[p] > 32 && forall i :: o <= i < p ==> c[i] <= 32
    ensures SkipWhitespace(c, o) == p && SkipBlanks(c, o) == p
    decreases p - o
  {
    if o < p {
      SkipsTo(c, o + 1, p);
    }
  }

  // ---- Values ----

  /** No text of a value starts with a blank. */
  lemma TextStarts(k: Libc, f: Style, item: Item, column: nat, spaced: bool, levels: int)
    requires Printable(item, levels)
    ensures var t := Styled(k, f, item, column, spaced); |t| > 0 && 32 < t[0] < 128 && t[0] != ']' as int
  {
  }

  lemma ItemsTextStarts(k: Libc, c: bytes, o: nat, f: Style, items: seq<Item>, column: nat, spaced: bool, levels: int)
    requires items != [] && PrintableItems(items, levels) && At(c, o, StyledItems(k, f, items, column, spaced))
    ensures o < |c| && c[o] > 32 && c[o] != ']' as int
  {
    TextStarts(k, f, items[0], column, spaced, levels);
    AtFirst(c, o, StyledItems(k, f, items, column, spaced));
  }

  /** parse_value reads back an item from its text in any style, and stops right after the text. */
  lemma {:induction false} StyledRoundTrip(k: Libc, c: bytes, o: nat, f: Style, item: Item, column: nat, spaced: bool,
    depth: nat)
    requires ReadsInts(k) && Printable(item, NESTING_LIMIT - depth) && At(c, o, Styled(k, f, item, column, spaced))
    requires item.Number? ==> Stops(c, o + |Styled(k, f, item, column, spaced)|)
    ensures ParseValue(k, c, o, depth) == Ok(item, o + |Styled(k, f, item, column, spaced)|)
    decreases item, 2
  {
    hide At, ParseValue, Quoted, StyledItems, StyledMembers;
    match item
    case Null => KeywordRoundTrip(k, c, o, depth);
    case False => KeywordRoundTrip(k, c, o, depth);
    case True => KeywordRoundTrip(k, c, o, depth);
    case Number(v) => NumberRoundTrip(k, c, o, IntOf(v), depth);
    case String(s) =>
      QuotedParts(c, o, s);
      Dispatch(k, c, o, depth);
      StringRoundTrip(c, o, s);
    case Array(items) => ArrayRoundTrip(k, c, o, f, item, column, spaced, depth);
    case Object(members) => ObjectRoundTrip(k, c, o, f, item, column, spaced, depth);
  }

  lemma ArrayParts(k: Libc, c: bytes, o: nat, f: Style, item: Item, column: nat, spaced: bool)
    requires item.Array? && At(c, o, Styled(k, f, item, column, spaced))
    ensures var t := StyledItems(k, f, item.items, column + 1, spaced);
      && o < |c| && c[o] == '[' as int && At(c, o + 1, t) && o + 1 + |t| < |c| && c[o + 1 + |t|] == ']' as int
      && |Styled(k, f, item, column, spaced)| == |t| + 2
  {
    var t := StyledItems(k, f, item.items, column + 1, spaced);
    AtConcat(c, o, ['[' as int] + t, [']' as int]);
    AtConcat(c, o, ['[' as int], t);
    AtByte(c, o, '[' as int);
    AtByte(c, o + 1 + |t|, ']' as int);
  }

  lemma {:induction false} ArrayRoundTrip(
    k: Libc, c: bytes, o: nat, f: Style, item: Item, column: nat, spaced: bool, depth: nat)
    requires ReadsInts(k) && item.Array? && Printable(item, NESTING_LIMIT - depth)
    requires At(c, o, Styled(k, f, item, column, spaced))
    ensures ParseValue(k, c, o, depth) == Ok(item, o + |Styled(k, f, item, column, spaced)|)
    decreases item, 1
  {
    hide At, Styled, ParseValue, ParseElements, SkipWhitespace;
    var items := item.items;
    ArrayParts(k, c, o, f, item, column, spaced);
    Dispatch(k, c, o, depth);
    if items != [] {
      ItemsTextStarts(k, c, o + 1, f, items, column + 1, spaced, NESTING_LIMIT - depth - 1);
    }
    SkipsTo(c, o + 1, o + 1);
    if items != [] {
      ElementsRoundTrip(k, c, o, o + 1, f, items, column + 1, spaced, depth + 1);
    }
  }

  lemma ElementParts(k: Libc, c: bytes, s: nat, f: Style, items: seq<Item>, column: nat, spaced: bool)
    requires items != [] && At(c, s, StyledItems(k, f, items, column, spaced))
    ensures var next := After(f, items[0], spaced);
      var x, rest, sep :=
        Styled(k, f, items[0], column, spaced), StyledItems(k, f, items[1..], column, next), Separator(next);
      && At(c, s, x)
      && (|items| == 1 ==> StyledItems(k, f, items, column, spaced) == x)
      && (|items| > 1 ==> At(c, s + |x|, sep) && At(c, s + |x| + |sep|, rest)
                          && |StyledItems(k, f, items, column, spaced)| == |x| + |sep| + |rest|)
  {
    hide At, Styled;
    var next := After(f, items[0], spaced);
    var x, rest := Styled(k, f, items[0], column, spaced), StyledItems(k, f, items[1..], column, next);
    if |items| == 1 {
      assert x + [] + [] == x;
    } else {
      AtConcat(c, s, x + Separator(next), rest);
      AtConcat(c, s, x, Separator(next));
    }
  }

  lemma AfterSeparator(c: bytes, o: nat, spaced: bool)
    requires At(c, o, Separator(spaced)) && o + |Separator(spaced)| < |c| && c[o + |Separator(spaced)|] > 32
    ensures c[o] == ',' as int && SkipWhitespace(c, o + 1) == o + |Separator(spaced)|
  {
    var sep := Separator(spaced);
    assert c[o + 0] == sep[0] && (spaced ==> c[o + 1] == sep[1]);
    SkipsTo(c, o + 1, o + |sep|);
  }

  lemma LastElement(k: Libc, c: bytes, o: nat, depth: nat, item: Item, e: nat)
    requires o < |c| && ParseValue(k, c, SkipWhitespace(c, o + 1), depth) == Ok(item, e)
    requires var p := SkipWhitespace(c, e); p < |c| && c[p] == ']' as int
    ensures ParseElements(k, c, o, depth) == Ok([item], SkipWhitespace(c, e) + 1)
  {
  }

  lemma NextElement(k: Libc, c: bytes, o: nat, depth: nat, item: Item, e: nat, rest: seq<Item>, z: nat)
    requires o < |c| && ParseValue(k, c, SkipWhitespace(c, o + 1), depth) == Ok(item, e)
    requires var p := SkipWhitespace(c, e);
      p < |c| && c[p] == ',' as int && ParseElements(k, c, p, depth) == Ok(rest, z)
    ensures ParseElements(k, c, o, depth) == Ok([item] + rest, z)
  {
  }

  /** The text of one element or more, from `s` up to the closing bracket. */
  lemma {:induction false} ElementsRoundTrip(
    k: Libc, c: bytes, o: nat, s: nat, f: Style, items: seq<Item>, column: nat, spaced: bool, depth: nat)
    requires ReadsInts(k) && PrintableItems(items, NESTING_LIMIT - depth) && items != []
    requires o < |c| && s == SkipWhitespace(c, o + 1)
    requires At(c, s, StyledItems(k, f, items, column, spaced))
    requires var z := s + |StyledItems(k, f, items, column, spaced)|; z < |c| && c[z] == ']' as int
    ensures ParseElements(k, c, o, depth) == Ok(items, s + |StyledItems(k, f, items, column, spaced)| + 1)
    decreases items, 0
  {
    hide At, Styled, StyledItems, ParseValue, ParseElements, SkipWhitespace;
    var e, next := s + |Styled(k, f, items[0], column, spaced)|, After(f, items[0], spaced);
    ElementParts(k, c, s, f, items, column, spaced);
    if |items| == 1 {
      SkipsTo(c, e, e);
      StyledRoundTrip(k, c, s, f, items[0], column, spaced, depth);
      LastElement(k, c, o, depth, items[0], e);
      assert items == [items[0]];
    } else {
      var n := e + |Separator(next)|;
      ItemsTextStarts(k, c, n, f, items[1..], column, next, NESTING_LIMIT - depth);
      AfterSeparator(c, e, next);
      SkipsTo(c, e, e);
      StyledRoundTrip(k, c, s, f, items[0], column, spaced, depth);
      ElementsRoundTrip(k, c, e, n, f, items[1..], column, next, depth);
      NextElement(k, c, o, depth, items[0], e, items[1..], n + |StyledItems(k, f, items[1..], column, next)| + 1);
      assert items == [items[0]] + items[1..];
    }
  }

  lemma ObjectParts(k: Libc, c: bytes, o: nat, f: Style, item: Item, column: nat, spaced: bool)
    requires item.Object? && At(c, o, Styled(k, f, item, column, spaced))
    ensures var t, s := StyledMembers(k, f, item.members, column + 1, spaced), o + |Brace(spaced)|;
      var z := s + |t| + |Indent(column, AfterMembers(f, item.members, spaced))|;
      && z < |c| && c[o] == '{' as int && (spaced ==> c[o + 1] == 10)
      && At(c, s, t) && (forall i :: s + |t| <= i < z ==> c[i] == 9) && c[z] == '}' as int
      && o + |Styled(k, f, item, column, spaced)| == z + 1
  {
    hide At, StyledMembers, AfterMembers, Indent;
    var open, tail := Brace(spaced), Indent(column, AfterMembers(f, item.members, spaced));
    var t := StyledMembers(k, f, item.members, column + 1, spaced);
    AtConcat(c, o, open + t + tail, ['}' as int]);
    AtConcat(c, o, open + t, tail);
    AtConcat(c, o, open, t);
    AtByte(c, o + |open| + |t| + |tail|, '}' as int);
    AtTabs(c, o + |open| + |t|, tail);
    if spaced {
      AtPair(c, o, '{' as int, 10);
    } else {
      AtByte(c, o, '{' as int);
    }
  }

  lemma TakesObject(k: Libc, c: bytes, o: nat, p: nat, depth: nat)
    requires p < |c| && o < |c| && c[o] == '{' as int && depth < NESTING_LIMIT && SkipWhitespace(c, o + 1) == p
    ensures ParseObject(k, c, o, depth) ==
      if c[p] == '}' as int then Ok(Object([]), p + 1)
      else match ParseMembers(k, c, p - 1, depth + 1) case Err => Err case Ok(members, e) => Ok(Object(members), e)
  {
    hide ParseMembers;
  }

  lemma {:induction false} ObjectRoundTrip(
    k: Libc, c: bytes, o: nat, f: Style, item: Item, column: nat, spaced: bool, depth: nat)
    requires ReadsInts(k) && item.Object? && Printable(item, NESTING_LIMIT - depth)
    requires At(c, o, Styled(k, f, item, column, spaced))
    ensures ParseValue(k, c, o, depth) == Ok(item, o + |Styled(k, f, item, column, spaced)|)
    decreases item, 1
  {
    hide At, Styled, StyledMembers, AfterMembers, Indent, ParseValue, ParseObject, ParseMembers, SkipWhitespace;
    var members := item.members;
    var s, z := o + |Brace(spaced)|, o + |Styled(k, f, item, column, spaced)| - 1;
    ObjectParts(k, c, o, f, item, column, spaced);
    Dispatch(k, c, o, depth);
    if members == [] {
      NoMembersStyled(k, f, column + 1, spaced);
      SkipsTo(c, o + 1, z);
      TakesObject(k, c, o, z, depth);
    } else {
      MembersInside(k, c, o, s, z, f, members, column + 1, spaced, depth);
    }
  }

  /** The members behind the opening brace at `o`. */
  lemma {:induction false} MembersInside(
    k: Libc, c: bytes, o: nat, s: nat, z: nat, f: Style, members: seq<Member>, column: nat, spaced: bool, depth: nat)
    requires ReadsInts(k) && depth < NESTING_LIMIT && PrintableMembers(members, NESTING_LIMIT - depth - 1)
      && members != []
    requires o < |c| && c[o] == '{' as int && (spaced ==> o + 1 < |c| && c[o + 1] == 10) && s == o + |Brace(spaced)|
    requires At(c, s, StyledMembers(k, f, members, column, spaced))
    requires var w := s + |StyledMembers(k, f, members, column, spaced)|;
      w <= z < |c| && c[z] == '}' as int && forall i :: w <= i < z ==> c[i] == 9
    ensures ParseObject(k, c, o, depth) == Ok(Object(members), z + 1)
    decreases members, 1
  {
    hide At, StyledMembers, Indent, ParseObject, ParseMembers, SkipWhitespace, PrintableMembers;
    var q := s + |Indent(column, spaced)|;
    MembersStart(k, c, s, f, members, column, spaced);
    SkipsTo(c, o + 1, q);
    SkipsTo(c, q, q);
    TakesObject(k, c, o, q, depth);
    MembersRoundTrip(k, c, q - 1, s, z, f, members, column, spaced, depth + 1);
  }

  lemma NoMembersStyled(k: Libc, f: Style, column: nat, spaced: bool)
    ensures StyledMembers(k, f, [], column, spaced) == []
  {
  }

  /** Where the pieces of one member stand. */
  lemma MemberParts(k: Libc, c: bytes, s: nat, f: Style, m: Member, last: bool, column: nat, spaced: bool)
    requires At(c, s, StyledMember(k, f, m, last, column, spaced))
    ensures var inside := f(m.key, spaced);
      var next := After(f, m.item, inside);
      var q := s + |Indent(column, spaced)|;
      var colon := q + |Quoted(m.key)|;
      var v := colon + |Colon(inside)|;
      var e := v + |Styled(k, f, m.item, column, inside)|;
      var n := s + |StyledMember(k, f, m, last, column, spaced)|;
      && n == e + (if last then 0 else 1) + (if next then 1 else 0) && n <= |c|
      && (forall i :: s <= i < q ==> c[i] == 9) && At(c, q, Quoted(m.key))
      && c[colon] == ':' as int && (inside ==> c[colon + 1] == 9) && At(c, v, Styled(k, f, m.item, column, inside))
      && (!last ==> c[e] == ',' as int) && (next ==> c[n - 1] == 10)
  {
    hide At, Styled, Quoted, Indent;
    var inside := f(m.key, spaced);
    var next := After(f, m.item, inside);
    var tabs, mark, end := Indent(column, spaced), Colon(inside), LineEnd(last, next);
    var key, text := Quoted(m.key), Styled(k, f, m.item, column, inside);
    AtLength(c, s, StyledMember(k, f, m, last, column, spaced));
    AtConcat(c, s, tabs + key + mark + text, end);
    AtConcat(c, s, tabs + key + mark, text);
    AtConcat(c, s, tabs + key, mark);
    AtConcat(c, s, tabs, key);
    AtTabs(c, s, tabs);
    AtColon(c, s + |tabs| + |key|, inside);
    AtLineEnd(c, s + |tabs| + |key| + |mark| + |text|, last, next);
  }

  lemma AtColon(c: bytes, o: nat, spaced: bool)
    requires At(c, o, Colon(spaced))
    ensures c[o] == ':' as int && (spaced ==> c[o + 1] == 9)
  {
    assert c[o + 0] == Colon(spaced)[0] && (spaced ==> c[o + 1] == Colon(spaced)[1]);
  }

  lemma AtLineEnd(c: bytes, o: nat, last: bool, spaced: bool)
    requires At(c, o, LineEnd(last, spaced))
    ensures (!last ==> c[o] == ',' as int) && (spaced ==> c[o + |LineEnd(last, spaced)| - 1] == 10)
  {
    var t := LineEnd(last, spaced);
    assert t != [] ==> c[o + 0] == t[0];
    assert |t| == 2 ==> c[o + 1] == t[1];
  }

  lemma AtTabs(c: bytes, o: nat, t: bytes)
    requires At(c, o, t) && forall i :: 0 <= i < |t| ==> t[i] == 9
    ensures forall i :: o <= i < o + |t| ==> c[i] == 9
  {
    forall i | o <= i < o + |t|
      ensures c[i] == 9
    {
      assert c[o + (i - o)] == t[i - o];
    }
  }

  /** One turn of parse_object's loop, up to the byte after the value. */
  lemma OneMember(k: Libc, c: bytes, o: nat, depth: nat, m: Member, q: nat, colon: nat, v: nat, e: nat)
    requires o + 1 < |c| && SkipWhitespace(c, o + 1) == q && ParseString(c, q) == Ok(m.key, colon)
    requires colon < |c| && c[colon] == ':' as int && SkipWhitespace(c, colon + 1) == v
    requires ParseValue(k, c, v, depth) == Ok(m.item, e)
    ensures TakesMember(k, c, o, depth, m, e)
  {
    hide ParseValue, ParseString;
    SkipsTo(c, colon, colon);
  }

  /** From `o`, parse_object reads the member `m` up to `e` and goes on as the next byte says. */
  ghost predicate TakesMember(k: Libc, c: bytes, o: nat, depth: nat, m: Member, e: nat) {
    var p := SkipWhitespace(c, e);
    && o < |c|
    && (p < |c| && c[p] == '}' as int ==> ParseMembers(k, c, o, depth) == Ok([m], p + 1))
    && (p < |c| && c[p] == ',' as int && ParseMembers(k, c, p, depth).Ok? ==>
          ParseMembers(k, c, o, depth)
            == Ok([m] + ParseMembers(k, c, p, depth).value, ParseMembers(k, c, p, depth).offset))
    && (p < |c| && c[p] == ',' as int && ParseMembers(k, c, p, depth).Err? ==> ParseMembers(k, c, o, depth).Err?)
  }

  lemma {:induction false} MemberRoundTrip(
    k: Libc, c: bytes, o: nat, s: nat, f: Style, m: Member, last: bool, column: nat, spaced: bool, depth: nat)
    returns (e: nat, n: nat)
    requires ReadsInts(k) && Printable(m.item, NESTING_LIMIT - depth)
    requires At(c, s, StyledMember(k, f, m, last, column, spaced))
    requires o + 1 < |c| && SkipWhitespace(c, o + 1) == s + |Indent(column, spaced)|
    requires last ==> Stops(c, s + |StyledMember(k, f, m, last, column, spaced)|)
    ensures n == s + |StyledMember(k, f, m, last, column, spaced)| && n <= |c|
    ensures e == n - (if last then 0 else 1) - (if AfterMember(f, m, spaced) then 1 else 0)
    ensures (!last ==> c[e] == ',' as int) && (AfterMember(f, m, spaced) ==> c[n - 1] == 10)
    ensures TakesMember(k, c, o, depth, m, e)
    decreases m, 3
  {
    hide At, Styled, StyledMember, Quoted, Indent, ParseValue, ParseString, SkipWhitespace, Printable, TakesMember;
    MemberParts(k, c, s, f, m, last, column, spaced);
    var inside := f(m.key, spaced);
    var q := s + |Indent(column, spaced)|;
    var colon := q + |Quoted(m.key)|;
    var v := colon + |Colon(inside)|;
    e := v + |Styled(k, f, m.item, column, inside)|;
    n := s + |StyledMember(k, f, m, last, column, spaced)|;
    StringRoundTrip(c, q, m.key);
    TextAt(k, c, v, f, m.item, column, inside, NESTING_LIMIT - depth);
    SkipsTo(c, colon + 1, v);
    StyledRoundTrip(k, c, v, f, m.item, column, inside, depth);
    OneMember(k, c, o, depth, m, q, colon, v, e);
  }

  lemma TextAt(k: Libc, c: bytes, o: nat, f: Style, item: Item, column: nat, spaced: bool, levels: int)
    requires Printable(item, levels) && At(c, o, Styled(k, f, item, column, spaced))
    ensures o < |c| && c[o] > 32
  {
    TextStarts(k, f, item, column, spaced, levels);
    AtFirst(c, o, Styled(k, f, item, column, spaced));
  }

  lemma MembersParts(k: Libc, c: bytes, s: nat, f: Style, members: seq<Member>, column: nat, spaced: bool)
    requires members != [] && At(c, s, StyledMembers(k, f, members, column, spaced))
    ensures var x := StyledMember(k, f, members[0], |members| == 1, column, spaced);
      var rest := StyledMembers(k, f, members[1..], column, AfterMember(f, members[0], spaced));
      && At(c, s, x) && At(c, s + |x|, rest) && |StyledMembers(k, f, members, column, spaced)| == |x| + |rest|
      && (|members| == 1 ==> rest == [])
  {
    hide At, StyledMember;
    AtConcat(c, s, StyledMember(k, f, members[0], |members| == 1, column, spaced),
             StyledMembers(k, f, members[1..], column, AfterMember(f, members[0], spaced)));
  }

  /** A list of members starts with its indentation and a quote. */
  lemma MembersStart(k: Libc, c: bytes, s: nat, f: Style, members: seq<Member>, column: nat, spaced: bool)
    requires members != [] && At(c, s, StyledMembers(k, f, members, column, spaced))
    ensures var q := s + |Indent(column, spaced)|; q < |c| && c[q] == QUOTE && forall i :: s <= i < q ==> c[i] == 9
  {
    hide At, StyledMember, StyledMembers, Indent;
    MembersParts(k, c, s, f, members, column, spaced);
    MemberParts(k, c, s, f, members[0], |members| == 1, column, spaced);
    QuotedParts(c, s + |Indent(column, spaced)|, members[0].key);
  }

  /** The text of one member or more, from `s`, then tabs up to the closing brace at `z`. */
  lemma {:induction false} MembersRoundTrip(
    k: Libc, c: bytes, o: nat, s: nat, z: nat, f: Style, members: seq<Member>, column: nat, spaced: bool, depth: nat)
    requires ReadsInts(k) && PrintableMembers(members, NESTING_LIMIT - depth) && members != []
    requires At(c, s, StyledMembers(k, f, members, column, spaced))
    requires o + 1 < |c| && SkipWhitespace(c, o + 1) == s + |Indent(column, spaced)|
    requires var w := s + |StyledMembers(k, f, members, column, spaced)|;
      w <= z < |c| && c[z] == '}' as int && forall i :: w <= i < z ==> c[i] == 9
    ensures ParseMembers(k, c, o, depth) == Ok(members, z + 1)
    decreases members, 0
  {
    hide At, Styled, StyledMember, StyledMembers, Indent, ParseMembers, SkipWhitespace;
    var m, last, next := members[0], |members| == 1, AfterMember(f, members[0], spaced);
    MembersParts(k, c, s, f, members, column, spaced);
    var e, n := MemberRoundTrip(k, c, o, s, f, m, last, column, spaced, depth);
    if last {
      SkipsTo(c, e, z);
      assert members == [m];
    } else {
      SkipsTo(c, e, e);
      MembersStart(k, c, n, f, members[1..], column, next);
      SkipsTo(c, e + 1, n + |Indent(column, next)|);
      MembersRoundTrip(k, c, e, n, z, f, members[1..], column, next, depth);
      assert members == [m] + members[1..];
    }
  }

  /** parse_value undoes print_value and stops right after the text. */
  lemma ValueRoundTrip(k: Libc, c: bytes, o: nat, item: Item, format: bool, column: nat, depth: nat)
    requires ReadsInts(k) && Printable(item, NESTING_LIMIT - depth) && At(c, o, ItemText(k, item, format, column))
    requires item.Number? ==> Stops(c, o + |ItemText(k, item, format, column)|)
    ensures ParseValue(k, c, o, depth) == Ok(item, o + |ItemText(k, item, format, column)|)
  {
    PrintedIsUniform(k, item, column, format);
    StyledRoundTrip(k, c, o, Uniform, item, column, format, depth);
  }
}
