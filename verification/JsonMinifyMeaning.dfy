/** When a minified text still stands for the item it was printed from. */
module JsonMinifyMeaning {
  import opened JsonText
  import opened JsonRoundTrip
  import opened JsonDocument
  import opened JsonMinify
  import opened JsonMinifyText

  // ---- A text cut at no escape ----

  /** Every backslash in the text starts a whole escape as the printer writes it. */
  ghost predicate Whole(t: bytes)
    decreases |t|
  {
    t == [] || (t[0] != BACKSLASH && Whole(t[1..])) || exists b :: Starts(t, b) && Whole(t[|Escape(b)|..])
  }

  /** The text starts with the escape of `b`. */
  predicate Starts(t: bytes, b: byte) {
    |Escape(b)| > 1 && |Escape(b)| <= |t| && t[..|Escape(b)|] == Escape(b)
  }

  lemma EscapeBytes(b: byte)
    requires |Escape(b)| > 1
    ensures Escape(b)[0] == BACKSLASH && b != 32 && b != SLASH
    ensures forall i :: 0 <= i < |Escape(b)| ==>
      Escape(b)[i] != NEWLINE && Escape(b)[i] != STAR && Escape(b)[i] != SLASH
  {
  }

  lemma WholeByte(b: byte, rest: bytes)
    requires b != BACKSLASH && Whole(rest)
    ensures Whole([b] + rest)
  {
    assert ([b] + rest)[1..] == rest;
  }

  lemma {:induction false} WholePlain(p: bytes, rest: bytes)
    requires BACKSLASH !in p && Whole(rest)
    ensures Whole(p + rest)
  {
    if p == [] {
      assert p + rest == rest;
    } else {
      WholePlain(p[1..], rest);
      WholeByte(p[0], p[1..] + rest);
      assert p + rest == [p[0]] + (p[1..] + rest);
    }
  }

  lemma WholeEscape(b: byte, rest: bytes)
    requires Whole(rest)
    ensures Whole(Escape(b) + rest)
  {
    var t, n := Escape(b) + rest, |Escape(b)|;
    assert t[..n] == Escape(b) && t[n..] == rest;
    if n == 1 {
      EscapeForm(b);
      WholePlain(Escape(b), rest);
    } else {
      assert Starts(t, b);
    }
  }

  lemma {:induction false} WholeString(s: bytes, rest: bytes)
    requires Whole(rest)
    ensures Whole(EscapeAll(s) + rest)
  {
    hide Whole, Escape, EscapeAll;
    AllEscaped(s, rest);
    if s == [] {
      assert [] + rest == rest;
    } else {
      WholeString(s[1..], rest);
      WholeEscape(s[0], EscapeAll(s[1..]) + rest);
    }
  }

  lemma WholeQuoted(s: bytes, rest: bytes)
    requires Whole(rest)
    ensures Whole(Quoted(s) + rest) && Whole(EscapeAll(s) + ([QUOTE] + rest))
  {
    hide Whole, EscapeAll, Quoted;
    QuotedSplit(s, rest);
    WholeByte(QUOTE, rest);
    WholeString(s, [QUOTE] + rest);
    WholeByte(QUOTE, EscapeAll(s) + ([QUOTE] + rest));
  }

  // ---- What comes first once a byte of a string is taken out ----

  /** Where a byte of an escape is not the one looked for, the scanner for it takes the whole escape. */
  lemma {:induction false} LineSkips(p: bytes, rest: bytes)
    requires NEWLINE !in p
    ensures AfterLine(p + rest) == AfterLine(rest)
  {
    if p == [] {
      assert p + rest == rest;
    } else {
      assert (p + rest)[1..] == p[1..] + rest;
      LineSkips(p[1..], rest);
    }
  }

  lemma {:induction false} CommentSkips(p: bytes, rest: bytes)
    requires STAR !in p
    ensures AfterComment(p + rest) == AfterComment(rest)
  {
    if p == [] {
      assert p + rest == rest;
    } else {
      assert (p + rest)[1..] == p[1..] + rest;
      CommentSkips(p[1..], rest);
    }
  }

  lemma {:induction false} WholeAfterLine(t: bytes)
    requires Whole(t)
    ensures Whole(AfterLine(t))
    decreases |t|
  {
    if t != [] {
      if t[0] != BACKSLASH {
        WholeNext(t);
        WholeAfterLine(t[1..]);
      } else {
        var b := WholeFront(t);
        var n := |Escape(b)|;
        EscapeBytes(b);
        assert t == Escape(b) + t[n..];
        LineSkips(Escape(b), t[n..]);
        WholeAfterLine(t[n..]);
      }
    }
  }

  lemma {:induction false} WholeAfterComment(t: bytes)
    requires Whole(t)
    ensures Whole(AfterComment(t))
    decreases |t|
  {
    if t != [] {
      if t[0] != BACKSLASH {
        WholeNext(t);
        if t[0] == STAR && |t| > 1 && t[1] == SLASH {
          WholeNext(t[1..]);
          assert t[1..][1..] == t[2..];
        } else {
          WholeAfterComment(t[1..]);
        }
      } else {
        var b := WholeFront(t);
        var n := |Escape(b)|;
        EscapeBytes(b);
        assert t == Escape(b) + t[n..];
        CommentSkips(Escape(b), t[n..]);
        WholeAfterComment(t[n..]);
      }
    }
  }

  lemma WholeNext(t: bytes)
    requires Whole(t) && t != [] && t[0] != BACKSLASH
    ensures Whole(t[1..])
  {
    StartsWithBackslash(t);
  }

  lemma StartsWithBackslash(t: bytes)
    ensures forall b :: Starts(t, b) ==> t != [] && t[0] == BACKSLASH
  {
    forall b | Starts(t, b)
      ensures t != [] && t[0] == BACKSLASH
    {
      EscapeBytes(b);
      assert t[0] == t[..|Escape(b)|][0];
    }
  }

  lemma WholeFront(t: bytes) returns (b: byte)
    requires Whole(t) && t != [] && t[0] == BACKSLASH
    ensures Starts(t, b) && Whole(t[|Escape(b)|..])
  {
    b :| Starts(t, b) && Whole(t[|Escape(b)|..]);
  }

  /** The text does not go on with a blank or a slash, however a parser of strings reads it. */
  ghost predicate Unlike(t: bytes) {
    t == [] || (t[0] != BACKSLASH && t[0] != 32 && t[0] != SLASH) || exists b :: Starts(t, b)
  }

  /** In step, the minifier never goes on with a blank or a slash. */
  lemma {:induction false} MinifiedIsUnlike(t: bytes)
    requires Whole(t)
    ensures Unlike(Minify(t))
    decreases |t|
  {
    hide AfterLine, AfterComment, StringLen;
    if t == [] {
    } else if t[0] == BACKSLASH {
      var b := WholeFront(t);
      var n := |Escape(b)|;
      assert t == Escape(b) + t[n..];
      EscapeStands(b, t[n..]);
    } else if IsBlank(t[0]) {
      WholeNext(t);
      MinifiedIsUnlike(t[1..]);
    } else if t[0] == SLASH {
      WholeNext(t);
      if |t| > 1 && (t[1] == SLASH || t[1] == STAR) {
        WholeNext(t[1..]);
        assert t[1..][1..] == t[2..];
        WholeAfterLine(t[2..]);
        WholeAfterComment(t[2..]);
        MinifiedIsUnlike(if t[1] == SLASH then AfterLine(t[2..]) else AfterComment(t[2..]));
      } else {
        MinifiedIsUnlike(t[1..]);
      }
    }
  }

  lemma EscapeStands(b: byte, rest: bytes)
    requires |Escape(b)| > 1
    ensures Unlike(Minify(Escape(b) + rest))
  {
    hide Minify;
    var r := Minify(Escape(b) + rest);
    EscapeBytes(b);
    if b == QUOTE {
      BackslashStays([QUOTE] + rest);
      FromQuote(false, rest);
      MinifyIsFrom([QUOTE] + rest);
      assert Escape(b) + rest == [BACKSLASH] + ([QUOTE] + rest);
      assert r == [BACKSLASH] + ([QUOTE] + From(true, rest));
      assert r[..2] == Escape(b);
    } else {
      EscapeKept(b, rest);
      assert r[..|Escape(b)|] == Escape(b);
    }
    assert Starts(r, b);
  }

  // ---- Printed texts are whole ----

  lemma WholePieces(column: nat, last: bool, rest: bytes)
    requires Whole(rest)
    ensures Whole(Brace(true) + rest) && Whole(Separator(true) + rest) && Whole(Colon(true) + rest)
    ensures Whole(Indent(column, true) + rest) && Whole(LineEnd(last, true) + rest)
  {
    hide Whole, Indent;
    WholePlain(Brace(true), rest);
    WholePlain(Separator(true), rest);
    WholePlain(Colon(true), rest);
    WholePlain(Indent(column, true), rest);
    WholePlain(LineEnd(last, true), rest);
  }

  lemma WholeKeywords(rest: bytes)
    requires Whole(rest)
    ensures Whole(Ascii("null") + rest) && Whole(Ascii("false") + rest) && Whole(Ascii("true") + rest)
  {
    hide Whole;
    WholePlain(Ascii("null"), rest);
    WholePlain(Ascii("false"), rest);
    WholePlain(Ascii("true"), rest);
  }

  lemma {:induction false} WholeItem(k: Libc, item: Item, column: nat, rest: bytes, levels: int)
    requires Printable(item, levels) && Whole(rest)
    ensures Whole(Pretty(k, item, column) + rest)
    decreases item, 1
  {
    hide Whole, Decimal, Quoted, Keeps;
    match item
    case Null => WholeKeywords(rest);
    case False => WholeKeywords(rest);
    case True => WholeKeywords(rest);
    case Number(v) =>
      DecimalKeeps(IntOf(v));
      WholePlain(Decimal(IntOf(v)), rest);
    case String(s) => WholeQuoted(s, rest);
    case Array(items) => WholeArray(k, item, column, rest, levels);
    case Object(members) => WholeObject(k, item, column, rest, levels);
  }

  lemma {:induction false} WholeArray(k: Libc, item: Item, column: nat, rest: bytes, levels: int)
    requires item.Array? && Printable(item, levels) && Whole(rest)
    ensures Whole(Pretty(k, item, column) + rest)
    decreases item, 0
  {
    hide Whole, Styled, StyledItems;
    ArraySplit(k, Uniform, item, column, true, rest);
    WholeByte(']' as int, rest);
    WholeItems(k, item.items, column + 1, [']' as int] + rest, levels - 1);
    WholeByte('[' as int, StyledItems(k, Uniform, item.items, column + 1, true) + ([']' as int] + rest));
  }

  lemma {:induction false} WholeItems(k: Libc, items: seq<Item>, column: nat, rest: bytes, levels: int)
    requires PrintableItems(items, levels) && Whole(rest)
    ensures Whole(StyledItems(k, Uniform, items, column, true) + rest)
    decreases items, 0
  {
    hide Whole, Styled, StyledItems, After, Separator;
    if items == [] {
      NoItemsStyled(k, Uniform, column, true);
      assert [] + rest == rest;
    } else {
      UniformAfter(items[0], true);
      ItemsSplit(k, Uniform, items, column, true, rest);
      var more := StyledItems(k, Uniform, items[1..], column, true) + rest;
      WholeItems(k, items[1..], column, rest, levels);
      WholePieces(column, false, more);
      WholeItem(k, items[0], column, if |items| == 1 then rest else Separator(true) + more, levels);
    }
  }

  lemma {:induction false} WholeObject(k: Libc, item: Item, column: nat, rest: bytes, levels: int)
    requires item.Object? && Printable(item, levels) && Whole(rest)
    ensures Whole(Pretty(k, item, column) + rest)
    decreases item, 0
  {
    hide Whole, Styled, StyledMembers, Brace, Indent;
    UniformAfterMembers(item.members, true);
    ObjectSplit(k, Uniform, item, column, true, rest);
    var end := ['}' as int] + rest;
    WholeByte('}' as int, rest);
    WholePieces(column, false, end);
    WholeMembers(k, item.members, column + 1, Indent(column, true) + end, levels - 1);
    WholePieces(column, false,
      StyledMembers(k, Uniform, item.members, column + 1, true) + (Indent(column, true) + end));
  }

  lemma {:induction false} WholeMembers(k: Libc, members: seq<Member>, column: nat, rest: bytes, levels: int)
    requires PrintableMembers(members, levels) && Whole(rest)
    ensures Whole(StyledMembers(k, Uniform, members, column, true) + rest)
    decreases members, 0
  {
    hide Whole, StyledMember, StyledMembers, AfterMember;
    if members == [] {
      NoMembersStyled(k, Uniform, column, true);
      assert [] + rest == rest;
    } else {
      UniformAfterMember(members[0]);
      MembersSplit(k, Uniform, members, column, true, rest);
      WholeMembers(k, members[1..], column, rest, levels);
      WholeMember(k, members[0], |members| == 1, column,
        StyledMembers(k, Uniform, members[1..], column, true) + rest, levels);
    }
  }

  lemma {:induction false} WholeMember(k: Libc, m: Member, last: bool, column: nat, rest: bytes, levels: int)
    requires Printable(m.item, levels) && Whole(rest)
    ensures Whole(StyledMember(k, Uniform, m, last, column, true) + rest)
    decreases m, 2
  {
    hide Whole, Styled, StyledMember, Quoted, Colon, Indent, LineEnd, Printable;
    UniformAfter(m.item, true);
    MemberSplit(k, Uniform, m, last, column, true, rest);
    var end := LineEnd(last, true) + rest;
    var value := Pretty(k, m.item, column) + end;
    WholePieces(column, last, rest);
    WholeItem(k, m.item, column, end, levels);
    WholePieces(column, last, value);
    WholeQuoted(m.key, Colon(true) + value);
    WholePieces(column, last, Quoted(m.key) + (Colon(true) + value));
  }

  // ---- A string that loses a byte does not read back ----

  function Prepend(s: bytes, rest: Option<bytes>): Option<bytes> {
    match rest
    case None => None
    case Some(r) => Some(s + r)
  }

  /** One escaped byte is scanned over and decoded. */
  lemma ByteReads(c: bytes, p: nat, end: nat, b: byte)
    requires At(c, p, Escape(b)) && ScanEnd(c, p) == Some(end)
    ensures p + |Escape(b)| <= end < |c| && ScanEnd(c, p + |Escape(b)|) == Some(end)
    ensures DecodeAll(c, p, end) == Prepend([b], DecodeAll(c, p + |Escape(b)|, end))
  {
    hide At, Escape, DecodeOne;
    EscapeScans(c, p, b);
    EscapeDecodes(c, p, end, b);
  }

  lemma PrependTwice(b: byte, s: bytes, rest: Option<bytes>)
    ensures Prepend([], rest) == rest && Prepend([b], Prepend(s, rest)) == Prepend([b] + s, rest)
  {
    if rest.Some? {
      assert [] + rest.value == rest.value && [b] + (s + rest.value) == [b] + s + rest.value;
    }
  }

  /** Up to the end of the escaped string `s`, scanning and decoding do what they do for whole strings. */
  lemma {:induction false} PrefixReads(c: bytes, p: nat, end: nat, s: bytes)
    requires At(c, p, EscapeAll(s)) && ScanEnd(c, p) == Some(end)
    ensures p + |EscapeAll(s)| <= end < |c| && ScanEnd(c, p + |EscapeAll(s)|) == Some(end)
    ensures DecodeAll(c, p, end) == Prepend(s, DecodeAll(c, p + |EscapeAll(s)|, end))
    decreases |s|
  {
    hide At, Escape, DecodeAll, ScanEnd, Prepend;
    var rest := DecodeAll(c, p + |EscapeAll(s)|, end);
    if s == [] {
      PrependTwice(0, [], rest);
    } else {
      AtConcat(c, p, Escape(s[0]), EscapeAll(s[1..]));
      ByteReads(c, p, end, s[0]);
      PrefixReads(c, p + |Escape(s[0])|, end, s[1..]);
      PrependTwice(s[0], s[1..], rest);
      assert s == [s[0]] + s[1..];
    }
  }

  /** What a string decodes to from a place that is unlike `b`: it does not start with `b`. */
  lemma UnlikeDecodes(c: bytes, p: nat, end: nat, t: bytes, b: byte)
    requires p <= end < |c| && c[p..] == t + [0] && Unlike(t) && b in {32, SLASH} && ScanEnd(c, p) == Some(end)
    ensures match DecodeAll(c, p, end) case None => true case Some(r) => r == [] || r[0] != b
  {
    assert c[p] == (t + [0])[0];
    if p < end {
      if x :| Starts(t, x) {
        var e := |Escape(x)|;
        EscapeBytes(x);
        assert forall i :: 0 <= i < e ==> c[p + i] == c[p..][i] == t[i] == t[..e][i];
        assert At(c, p, Escape(x));
        EscapeScans(c, p, x);
        EscapeDecodes(c, p, end, x);
      }
    }
  }

  /** From a string that has lost the byte after `s[..i]`, parse_string does not read `s`. */
  lemma LostByte(c: bytes, o: nat, s: bytes, i: nat, t: bytes)
    requires i < |s| && s[i] in {32, SLASH} && Unlike(t)
    requires o <= |c| && c[o..] == [QUOTE] + (EscapeAll(s[..i]) + t) + [0]
    ensures ParseString(c, o).Ok? ==> ParseString(c, o).value != s
  {
    hide EscapeAll, Unlike, DecodeAll, ScanEnd;
    var front := EscapeAll(s[..i]);
    var p := o + 1 + |front|;
    assert c[o] == c[o..][0] == QUOTE;
    assert c[p..] == c[o..][1 + |front|..] == t + [0];
    assert At(c, o + 1, front) by {
      assert forall j :: 0 <= j < |front| ==> c[o + 1 + j] == c[o..][1 + j] == front[j];
    }
    if ScanEnd(c, o + 1).Some? {
      var end := ScanEnd(c, o + 1).value;
      PrefixReads(c, o + 1, end, s[..i]);
      UnlikeDecodes(c, p, end, t, s[i]);
    }
  }

  /** The first byte that a string loses: what was in front of it stays, and what comes next is not that byte. */
  lemma {:induction false} FirstLoss(s: bytes, tail: bytes) returns (i: nat, t: bytes)
    requires !Untouched(s) && Whole(tail)
    ensures i < |s| && s[i] in {32, SLASH} && Unlike(t)
    ensures Minify(EscapeAll(s) + tail) == EscapeAll(s[..i]) + t
  {
    hide Minify, EscapeAll, Escape, Whole, Unlike;
    AllEscaped([], tail);
    if s[0] == 32 || s[0] == SLASH {
      i, t := 0, Minify(EscapeAll(s) + tail);
      WholeString(s, tail);
      MinifiedIsUnlike(EscapeAll(s) + tail);
      assert s[..0] == [] && [] + t == t;
    } else {
      var j;
      j, t := FirstLoss(s[1..], tail);
      i := j + 1;
      AllEscaped(s, tail);
      EscapeKept(s[0], EscapeAll(s[1..]) + tail);
      assert s[..i][1..] == s[1..][..j];
      AllEscaped(s[..i], t);
    }
  }

  /** A string that does not survive. */
  lemma LostString(c: bytes, o: nat, s: bytes, inside: bool, rest: bytes)
    requires !Survives(s, inside) && Whole(rest) && o <= |c| && c[o..] == From(inside, Quoted(s) + rest) + [0]
    ensures o < |c| && c[o] == QUOTE && (ParseString(c, o).Ok? ==> ParseString(c, o).value != s)
  {
    hide Minify, StringLen, EscapeAll, Quoted, Whole, Unlike, ParseString, From, Untouched;
    var tail := [QUOTE] + rest;
    QuotedSplit(s, rest);
    FromQuote(true, EscapeAll(s) + tail);
    MinifyIsFrom(EscapeAll(s) + tail);
    WholeByte(QUOTE, rest);
    var i, t := FirstLoss(s, tail);
    assert c[o] == c[o..][0];
    LostByte(c, o, s, i, t);
  }

  // ---- An item that loses a byte does not read back ----

  lemma Suffix(c: bytes, o: nat, a: bytes, b: bytes)
    requires o <= |c| && c[o..] == a + b
    ensures At(c, o, a) && o + |a| <= |c| && c[o + |a|..] == b
  {
    forall i | 0 <= i < |a|
      ensures c[o + i] == a[i]
    {
      assert c[o + i] == c[o..][i];
    }
  }

  /** The front of a value or of a key stays where it is. */
  lemma FrontStays(inside: bool, t: bytes)
    requires t != [] && t[0] > 32 && t[0] != SLASH
    ensures From(inside, t) != [] && From(inside, t)[0] == t[0]
  {
    if inside && StringLen(t).Some? {
      var n := StringLen(t).value;
      assert From(inside, t)[0] == t[..n][0];
    }
  }

  lemma ItemStays(k: Libc, item: Item, column: nat, inside: bool, rest: bytes, levels: int)
    requires Printable(item, levels)
    ensures var t := From(inside, Pretty(k, item, column) + rest); t != [] && t[0] > 32
    ensures item.Array? || item.Object? || item.String? ==>
      From(inside, Pretty(k, item, column) + rest)[0]
        == if item.Array? then '[' as int else if item.Object? then '{' as int else QUOTE
  {
    hide From;
    TextStarts(k, Uniform, item, column, true, levels);
    SlashStarts(k, item, column, levels);
    FrontStays(inside, Pretty(k, item, column) + rest);
  }

  lemma SlashStarts(k: Libc, item: Item, column: nat, levels: int)
    requires Printable(item, levels)
    ensures Pretty(k, item, column) != [] && Pretty(k, item, column)[0] != SLASH
  {
  }

  /** With a quote in front, parse_value is parse_string. */
  lemma StringValue(k: Libc, c: bytes, o: nat, depth: nat)
    requires o < |c| && c[o] == QUOTE
    ensures ParseValue(k, c, o, depth) == match ParseString(c, o) case Err => Err case Ok(s, e) => Ok(String(s), e)
  {
    hide ParseString;
    NotKeyword(c, o);
  }

  lemma TakesArray(k: Libc, c: bytes, o: nat, depth: nat)
    requires o + 1 < |c| && c[o] == '[' as int && c[o + 1] > 32 && c[o + 1] != ']' as int
    ensures ParseArray(k, c, o, depth).Ok? ==>
      ParseElements(k, c, o, depth + 1).Ok?
        && ParseArray(k, c, o, depth).value == Array(ParseElements(k, c, o, depth + 1).value)
  {
    hide ParseElements;
    SkipsTo(c, o + 1, o + 1);
  }

  /** The first element is read as something else. */
  lemma FirstDiffers(k: Libc, c: bytes, o: nat, depth: nat, item: Item)
    requires o < |c| && ParseElements(k, c, o, depth).Ok?
    requires var r := ParseValue(k, c, SkipWhitespace(c, o + 1), depth); r.Ok? ==> r.value != item
    ensures var items := ParseElements(k, c, o, depth).value; items != [] && items[0] != item
  {
    hide ParseValue;
  }

  /** The elements after the first are read as something else. */
  lemma RestDiffers(k: Libc, c: bytes, o: nat, depth: nat, item: Item, e: nat, rest: seq<Item>)
    requires o < |c| && ParseValue(k, c, SkipWhitespace(c, o + 1), depth) == Ok(item, e) && e < |c|
      && c[e] == ',' as int
    requires ParseElements(k, c, e, depth).Ok? ==> ParseElements(k, c, e, depth).value != rest
    ensures ParseElements(k, c, o, depth).Ok? ==> ParseElements(k, c, o, depth).value[1..] != rest
  {
    hide ParseValue;
    SkipsTo(c, e, e);
    if ParseElements(k, c, e, depth).Ok? {
      assert ([item] + ParseElements(k, c, e, depth).value)[1..] == ParseElements(k, c, e, depth).value;
    }
  }

  lemma {:induction false} LostItem(k: Libc, c: bytes, o: nat, item: Item, column: nat, inside: bool, rest: bytes,
    depth: nat)
    requires ReadsInts(k) && Printable(item, NESTING_LIMIT - depth) && !ItemSurvives(item, inside) && Whole(rest)
    requires o <= |c| && c[o..] == From(inside, Pretty(k, item, column) + rest) + [0]
    ensures ParseValue(k, c, o, depth).Ok? ==> ParseValue(k, c, o, depth).value != item
    decreases item, 2
  {
    hide From, Whole, ParseString, ParseArray, ParseObject, Quoted, StyledItems, StyledMembers;
    ItemStays(k, item, column, inside, rest, NESTING_LIMIT - depth);
    assert c[o] == c[o..][0];
    Dispatch(k, c, o, depth);
    match item
    case String(s) =>
      LostString(c, o, s, inside, rest);
      StringValue(k, c, o, depth);
    case Array(items) => LostArray(k, c, o, item, column, inside, rest, depth);
    case Object(members) => LostObject(k, c, o, item, column, inside, rest, depth);
  }

  lemma {:induction false} LostArray(k: Libc, c: bytes, o: nat, item: Item, column: nat, inside: bool, rest: bytes,
    depth: nat)
    requires ReadsInts(k) && item.Array? && Printable(item, NESTING_LIMIT - depth) && !ItemSurvives(item, inside)
      && Whole(rest)
    requires o < |c| && c[o..] == From(inside, Pretty(k, item, column) + rest) + [0]
    ensures ParseArray(k, c, o, depth).Ok? ==> ParseArray(k, c, o, depth).value != item
    decreases item, 1
  {
    hide From, Whole, ParseElements, ParseArray, Styled, StyledItems, SkipWhitespace;
    var items := item.items;
    var end := [']' as int] + rest;
    var t := StyledItems(k, Uniform, items, column + 1, true) + end;
    ArraySplit(k, Uniform, item, column, true, rest);
    FromPlain(inside, ['[' as int], t);
    assert ['[' as int] + From(inside, t) + [0] == ['[' as int] + (From(inside, t) + [0]);
    Suffix(c, o, ['[' as int], From(inside, t) + [0]);
    AtByte(c, o, '[' as int);
    ItemsStay(k, c, o + 1, items, column + 1, inside, end, NESTING_LIMIT - depth - 1);
    SkipsTo(c, o + 1, o + 1);
    WholeByte(']' as int, rest);
    LostElements(k, c, o, o + 1, items, column + 1, inside, end, depth + 1);
    TakesArray(k, c, o, depth);
  }

  lemma ItemsStay(k: Libc, c: bytes, o: nat, items: seq<Item>, column: nat, inside: bool, rest: bytes, levels: int)
    requires items != [] && PrintableItems(items, levels)
    requires o <= |c| && c[o..] == From(inside, StyledItems(k, Uniform, items, column, true) + rest) + [0]
    ensures o < |c| && c[o] > 32 && c[o] != ']' as int
  {
    hide From, Styled, StyledItems, Separator, After;
    ItemsSplit(k, Uniform, items, column, true, rest);
    TextStarts(k, Uniform, items[0], column, true, levels);
    SlashStarts(k, items[0], column, levels);
    FrontStays(inside, StyledItems(k, Uniform, items, column, true) + rest);
    assert c[o] == c[o..][0];
  }

  lemma {:induction false} LostElements(
    k: Libc, c: bytes, o: nat, s: nat, items: seq<Item>, column: nat, inside: bool, rest: bytes, depth: nat)
    requires ReadsInts(k) && PrintableItems(items, NESTING_LIMIT - depth) && !ItemsSurvive(items, inside) && Whole(rest)
    requires o < |c| && s == SkipWhitespace(c, o + 1) && s <= |c|
    requires c[s..] == From(inside, StyledItems(k, Uniform, items, column, true) + rest) + [0]
    ensures ParseElements(k, c, o, depth).Ok? ==> ParseElements(k, c, o, depth).value != items
    decreases items, 0
  {
    hide From, Whole, ParseValue, ParseElements, Styled, StyledItems, SkipWhitespace, Separator, After, Misread;
    var next := After(Misread, items[0], inside);
    var more := StyledItems(k, Uniform, items[1..], column, true) + rest;
    UniformAfter(items[0], true);
    ItemsSplit(k, Uniform, items, column, true, rest);
    WholeItems(k, items[1..], column, rest, NESTING_LIMIT - depth);
    WholePieces(column, false, more);
    if !ItemSurvives(items[0], inside) {
      LostItem(k, c, s, items[0], column, inside, if |items| == 1 then rest else Separator(true) + more, depth);
      if ParseElements(k, c, o, depth).Ok? {
        FirstDiffers(k, c, o, depth, items[0]);
      }
    } else {
      var e, n := ElementStays(k, c, s, items, column, inside, rest, NESTING_LIMIT - depth);
      StyledRoundTrip(k, c, s, Misread, items[0], column, inside, depth);
      LostElements(k, c, e, n, items[1..], column, next, rest, depth);
      RestDiffers(k, c, o, depth, items[0], e, items[1..]);
    }
  }

  /** An element that survives, with more elements behind it: where it ends, and where the next one starts. */
  lemma ElementStays(k: Libc, c: bytes, s: nat, items: seq<Item>, column: nat, inside: bool, rest: bytes, levels: int)
    returns (e: nat, n: nat)
    requires |items| > 1 && PrintableItems(items, levels) && ItemSurvives(items[0], inside) && s <= |c|
    requires c[s..] == From(inside, StyledItems(k, Uniform, items, column, true) + rest) + [0]
    ensures At(c, s, Styled(k, Misread, items[0], column, inside))
      && e == s + |Styled(k, Misread, items[0], column, inside)|
    ensures e < n <= |c| && c[e] == ',' as int && n == SkipWhitespace(c, e + 1)
    ensures c[n..]
      == From(After(Misread, items[0], inside), StyledItems(k, Uniform, items[1..], column, true) + rest) + [0]
  {
    hide From, Styled, StyledItems, SkipWhitespace, Separator, After, Misread, At;
    var next := After(Misread, items[0], inside);
    var x, more :=
      Styled(k, Misread, items[0], column, inside), StyledItems(k, Uniform, items[1..], column, true) + rest;
    UniformAfter(items[0], true);
    ItemsSplit(k, Uniform, items, column, true, rest);
    FromItem(k, items[0], column, inside, Separator(true) + more, levels);
    FromSeparator(next, more);
    var y := From(next, more) + [0];
    assert x + (Separator(next) + From(next, more)) + [0] == x + (Separator(next) + y);
    Suffix(c, s, x, Separator(next) + y);
    e := s + |x|;
    Suffix(c, e, Separator(next), y);
    n := e + |Separator(next)|;
    ItemsStay(k, c, n, items[1..], column, next, rest, levels);
    AfterSeparator(c, e, next);
  }

  lemma {:induction false} LostObject(k: Libc, c: bytes, o: nat, item: Item, column: nat, inside: bool, rest: bytes,
    depth: nat)
    requires ReadsInts(k) && item.Object? && Printable(item, NESTING_LIMIT - depth) && !ItemSurvives(item, inside)
      && Whole(rest)
    requires o < |c| && c[o..] == From(inside, Pretty(k, item, column) + rest) + [0]
    ensures ParseObject(k, c, o, depth).Ok? ==> ParseObject(k, c, o, depth).value != item
    decreases item, 1
  {
    hide From, Whole, ParseMembers, ParseObject, Styled, StyledMembers, SkipWhitespace, Brace, Indent;
    var members := item.members;
    var end := Indent(column, true) + (['}' as int] + rest);
    UniformAfterMembers(members, true);
    ObjectSplit(k, Uniform, item, column, true, rest);
    var t := StyledMembers(k, Uniform, members, column + 1, true) + end;
    FromBrace(inside, t);
    assert Brace(inside) + From(inside, t) + [0] == Brace(inside) + (From(inside, t) + [0]);
    Suffix(c, o, Brace(inside), From(inside, t) + [0]);
    AtBrace(c, o, inside);
    var s := o + |Brace(inside)|;
    var q := MembersStay(k, c, s, members, column + 1, inside, end);
    SkipsTo(c, o + 1, q);
    SkipsTo(c, q, q);
    WholeByte('}' as int, rest);
    WholePieces(column, false, ['}' as int] + rest);
    if depth < NESTING_LIMIT {
      TakesObject(k, c, o, q, depth);
      LostMembers(k, c, q - 1, s, members, column + 1, inside, end, depth + 1);
    } else {
      TooDeep(k, c, o, depth);
    }
  }

  lemma TooDeep(k: Libc, c: bytes, o: nat, depth: nat)
    requires o < |c| && depth >= NESTING_LIMIT
    ensures ParseObject(k, c, o, depth) == Err
  {
  }

  lemma AtBrace(c: bytes, o: nat, spaced: bool)
    requires At(c, o, Brace(spaced))
    ensures |Brace(spaced)| == (if spaced then 2 else 1) && o + |Brace(spaced)| <= |c|
    ensures c[o] == '{' as int && (spaced ==> c[o + 1] == 10)
  {
    assert c[o + 0] == Brace(spaced)[0] && (spaced ==> c[o + 1] == Brace(spaced)[1]);
  }

  /** Members start with their indentation, if it is still there, and the quote of the first key. */
  lemma MembersStay(k: Libc, c: bytes, s: nat, members: seq<Member>, column: nat, inside: bool, rest: bytes)
    returns (q: nat)
    requires members != [] && s <= |c|
    requires c[s..] == From(inside, StyledMembers(k, Uniform, members, column, true) + rest) + [0]
    ensures q == s + |Indent(column, inside)| < |c| && c[q] == QUOTE && forall i :: s <= i < q ==> c[i] == 9
  {
    hide From, StyledMember, StyledMembers, Indent;
    UniformAfterMember(members[0]);
    MembersSplit(k, Uniform, members, column, true, rest);
    q := MemberStays(k, c, s, members[0], |members| == 1, column, inside,
      StyledMembers(k, Uniform, members[1..], column, true) + rest);
  }

  lemma MemberStays(k: Libc, c: bytes, s: nat, m: Member, last: bool, column: nat, inside: bool, rest: bytes)
    returns (q: nat)
    requires s <= |c| && c[s..] == From(inside, StyledMember(k, Uniform, m, last, column, true) + rest) + [0]
    ensures q == s + |Indent(column, inside)| < |c| && c[q] == QUOTE && forall i :: s <= i < q ==> c[i] == 9
    ensures c[q..]
      == From(inside, Quoted(m.key) + (Colon(true) + (Pretty(k, m.item, column) + (LineEnd(last, true) + rest)))) + [0]
  {
    hide From, Styled, StyledMember, Indent, Quoted, Colon, LineEnd, At;
    var t := Quoted(m.key) + (Colon(true) + (Pretty(k, m.item, column) + (LineEnd(last, true) + rest)));
    UniformAfter(m.item, true);
    MemberSplit(k, Uniform, m, last, column, true, rest);
    FromIndent(inside, column, t);
    assert Indent(column, inside) + From(inside, t) + [0] == Indent(column, inside) + (From(inside, t) + [0]);
    Suffix(c, s, Indent(column, inside), From(inside, t) + [0]);
    AtTabs(c, s, Indent(column, inside));
    q := s + |Indent(column, inside)|;
    QuoteStarts(m.key);
    FrontStays(inside, t);
    assert c[q] == c[q..][0];
  }

  lemma QuoteStarts(s: bytes)
    ensures Quoted(s) != [] && Quoted(s)[0] == QUOTE
  {
  }

  lemma {:induction false} LostMembers(
    k: Libc, c: bytes, o: nat, s: nat, members: seq<Member>, column: nat, inside: bool, rest: bytes, depth: nat)
    requires ReadsInts(k) && PrintableMembers(members, NESTING_LIMIT - depth) && !MembersSurvive(members, inside)
      && Whole(rest)
    requires o + 1 < |c| && s <= |c| && SkipWhitespace(c, o + 1) == s + |Indent(column, inside)|
    requires c[s..] == From(inside, StyledMembers(k, Uniform, members, column, true) + rest) + [0]
    ensures ParseMembers(k, c, o, depth).Ok? ==> ParseMembers(k, c, o, depth).value != members
    decreases members, 0
  {
    hide From, Whole, ParseMembers, StyledMember, StyledMembers, SkipWhitespace, AfterMember, MemberSurvives, Misread,
      Indent;
    var m, last, next := members[0], |members| == 1, AfterMember(Misread, members[0], inside);
    var more := StyledMembers(k, Uniform, members[1..], column, true) + rest;
    UniformAfterMember(m);
    MembersSplit(k, Uniform, members, column, true, rest);
    WholeMembers(k, members[1..], column, rest, NESTING_LIMIT - depth);
    if !MemberSurvives(m, inside) {
      LostMember(k, c, o, s, m, last, column, inside, more, depth);
    } else {
      var e, n := MemberKept(k, c, o, s, members, column, inside, rest, depth);
      LostMembers(k, c, e, n, members[1..], column, next, rest, depth);
      LaterDiffer(k, c, o, depth, m, e, members[1..]);
    }
  }

  /** A member that survives, with more members behind it: where it ends, and where the next one starts. */
  lemma MemberKept(
    k: Libc, c: bytes, o: nat, s: nat, members: seq<Member>, column: nat, inside: bool, rest: bytes, depth: nat)
    returns (e: nat, n: nat)
    requires ReadsInts(k) && |members| > 1 && PrintableMembers(members, NESTING_LIMIT - depth)
      && MemberSurvives(members[0], inside)
    requires o + 1 < |c| && s <= |c| && SkipWhitespace(c, o + 1) == s + |Indent(column, inside)|
    requires c[s..] == From(inside, StyledMembers(k, Uniform, members, column, true) + rest) + [0]
    ensures TakesMember(k, c, o, depth, members[0], e) && e + 1 < |c| && c[e] == ',' as int && SkipWhitespace(c, e) == e
    ensures var next := AfterMember(Misread, members[0], inside);
      && n <= |c| && SkipWhitespace(c, e + 1) == n + |Indent(column, next)|
      && c[n..] == From(next, StyledMembers(k, Uniform, members[1..], column, true) + rest) + [0]
  {
    hide From, ParseMembers, StyledMember, StyledMembers, SkipWhitespace, AfterMember, MemberSurvives, Misread, Indent,
      TakesMember, At;
    var m, next := members[0], AfterMember(Misread, members[0], inside);
    var x, more :=
      StyledMember(k, Misread, m, false, column, inside), StyledMembers(k, Uniform, members[1..], column, true) + rest;
    UniformAfterMember(m);
    MembersSplit(k, Uniform, members, column, true, rest);
    FromMember(k, m, false, column, inside, more, NESTING_LIMIT - depth);
    assert x + From(next, more) + [0] == x + (From(next, more) + [0]);
    Suffix(c, s, x, From(next, more) + [0]);
    e, n := MemberRoundTrip(k, c, o, s, Misread, m, false, column, inside, depth);
    SkipsTo(c, e, e);
    var q := MembersStay(k, c, n, members[1..], column, next, rest);
    SkipsTo(c, e + 1, q);
  }

  /** The members after the first are read as something else. */
  lemma LaterDiffer(k: Libc, c: bytes, o: nat, depth: nat, m: Member, e: nat, rest: seq<Member>)
    requires TakesMember(k, c, o, depth, m, e) && e < |c| && c[e] == ',' as int && SkipWhitespace(c, e) == e
    requires ParseMembers(k, c, e, depth).Ok? ==> ParseMembers(k, c, e, depth).value != rest
    ensures ParseMembers(k, c, o, depth).Ok? ==> ParseMembers(k, c, o, depth).value[1..] != rest
  {
    hide ParseMembers, SkipWhitespace;
    if ParseMembers(k, c, e, depth).Ok? {
      assert ([m] + ParseMembers(k, c, e, depth).value)[1..] == ParseMembers(k, c, e, depth).value;
    }
  }

  lemma {:induction false} LostMember(
    k: Libc, c: bytes, o: nat, s: nat, m: Member, last: bool, column: nat, inside: bool, rest: bytes, depth: nat)
    requires ReadsInts(k) && Printable(m.item, NESTING_LIMIT - depth) && !MemberSurvives(m, inside) && Whole(rest)
    requires o + 1 < |c| && s <= |c| && SkipWhitespace(c, o + 1) == s + |Indent(column, inside)|
    requires c[s..] == From(inside, StyledMember(k, Uniform, m, last, column, true) + rest) + [0]
    ensures ParseMembers(k, c, o, depth).Ok? ==>
      ParseMembers(k, c, o, depth).value != [] && ParseMembers(k, c, o, depth).value[0] != m
    decreases m, 3
  {
    hide From, Whole, ParseMembers, ParseValue, ParseString, SkipWhitespace, Misread, Indent, Colon, LineEnd;
    hide Styled, StyledMember, Quoted, Survives, ItemSurvives, Printable;
    var levels := NESTING_LIMIT - depth;
    var q := MemberStays(k, c, s, m, last, column, inside, rest);
    var within := Misread(m.key, inside);
    var end := LineEnd(last, true) + rest;
    var value := Pretty(k, m.item, column) + end;
    WholePieces(column, last, rest);
    WholeItem(k, m.item, column, end, levels);
    WholePieces(column, last, value);
    if !Survives(m.key, inside) {
      LostString(c, q, m.key, inside, Colon(true) + value);
      KeyDiffers(k, c, o, depth, m);
    } else {
      var colon, v := KeyStays(k, c, q, m, column, inside, end, levels);
      LostItem(k, c, v, m.item, column, within, end, depth);
      ValueDiffers(k, c, o, depth, m, colon, v);
    }
  }

  /** A key that survives: where it ends, and where the value starts. */
  lemma KeyStays(k: Libc, c: bytes, q: nat, m: Member, column: nat, inside: bool, end: bytes, levels: int)
    returns (colon: nat, v: nat)
    requires Printable(m.item, levels) && Survives(m.key, inside) && q <= |c|
    requires c[q..] == From(inside, Quoted(m.key) + (Colon(true) + (Pretty(k, m.item, column) + end))) + [0]
    ensures ParseString(c, q) == Ok(m.key, colon) && colon < v <= |c| && c[colon] == ':' as int
      && SkipWhitespace(c, colon + 1) == v
    ensures c[v..] == From(Misread(m.key, inside), Pretty(k, m.item, column) + end) + [0]
  {
    hide From, Styled, Quoted, Colon, ParseString, SkipWhitespace, Misread, Survives, Printable, At;
    var within, value := Misread(m.key, inside), Pretty(k, m.item, column) + end;
    FromString(m.key, inside, Colon(true) + value);
    FromColon(within, value);
    colon, v := q + |Quoted(m.key)|, q + |Quoted(m.key)| + |Colon(within)|;
    Suffixes(c, q, Quoted(m.key), Colon(within), From(within, value));
    StringRoundTrip(c, q, m.key);
    AtColon(c, colon, within);
    ItemStays(k, m.item, column, within, end, levels);
    assert c[v] == c[v..][0];
    ColonLength(within);
    SkipsTo(c, colon + 1, v);
  }

  lemma Suffixes(c: bytes, o: nat, a: bytes, b: bytes, t: bytes)
    requires o <= |c| && c[o..] == a + (b + t) + [0]
    ensures At(c, o, a) && At(c, o + |a|, b) && o + |a| + |b| <= |c| && c[o + |a| + |b|..] == t + [0]
  {
    hide At;
    assert a + (b + t) + [0] == a + (b + (t + [0]));
    Suffix(c, o, a, b + (t + [0]));
    Suffix(c, o + |a|, b, t + [0]);
  }

  lemma ColonLength(spaced: bool)
    ensures |Colon(spaced)| == if spaced then 2 else 1
  {
  }

  lemma KeyDiffers(k: Libc, c: bytes, o: nat, depth: nat, m: Member)
    requires o + 1 < |c|
    requires var r := ParseString(c, SkipWhitespace(c, o + 1)); r.Ok? ==> r.value != m.key
    ensures ParseMembers(k, c, o, depth).Ok? ==>
      ParseMembers(k, c, o, depth).value != [] && ParseMembers(k, c, o, depth).value[0] != m
  {
    hide ParseValue, ParseString;
  }

  lemma ValueDiffers(k: Libc, c: bytes, o: nat, depth: nat, m: Member, colon: nat, v: nat)
    requires o + 1 < |c| && ParseString(c, SkipWhitespace(c, o + 1)) == Ok(m.key, colon)
    requires colon < |c| && c[colon] == ':' as int && SkipWhitespace(c, colon + 1) == v
    requires ParseValue(k, c, v, depth).Ok? ==> ParseValue(k, c, v, depth).value != m.item
    ensures ParseMembers(k, c, o, depth).Ok? ==>
      ParseMembers(k, c, o, depth).value != [] && ParseMembers(k, c, o, depth).value[0] != m
  {
    hide ParseValue, ParseString;
    SkipsTo(c, colon, colon);
  }

  // ---- The meaning of a minified text ----

  /**
   * The minified text of an item stands for that item exactly if the scanner takes nothing out of any string: no blank
   * and no slash stands before the first quote of a string that it enters out of step, behind one that ends in a
   * backslash.
   */
  lemma MeaningSurvives(k: Libc, item: Item, requireNul: bool)
    requires ReadsInts(k) && Printable(item, NESTING_LIMIT)
    ensures var text := Minify(ItemText(k, item, true, 0));
      var r := ParseDocument(k, text + [0], requireNul);
      && (ItemSurvives(item, false) ==> r == Ok(item, |text|))
      && (!ItemSurvives(item, false) && r.Ok? ==> r.value != item)
  {
    hide From, Styled, ItemText, Minify, ParseValue, SkipWhitespace;
    PrintedIsUniform(k, item, 0, true);
    MinifyIsFrom(Pretty(k, item, 0));
    var text := From(false, Pretty(k, item, 0));
    var c := text + [0];
    assert Pretty(k, item, 0) + [] == Pretty(k, item, 0);
    ItemStays(k, item, 0, false, [], NESTING_LIMIT);
    NoMarkInFront(k, item, c);
    SkipsTo(c, 0, 0);
    assert c[0..] == c;
    if ItemSurvives(item, false) {
      FromItem(k, item, 0, false, [], NESTING_LIMIT);
      NothingLeft(After(Misread, item, false));
      assert text + [] == text;
      Suffix(c, 0, text, [0]);
      StyledRoundTrip(k, c, 0, Misread, item, 0, false, 0);
      SkipsAll(c, |text|);
    } else {
      LostItem(k, c, 0, item, 0, false, [], 0);
    }
  }

  /** No minified text starts with a byte order mark. */
  lemma NoMarkInFront(k: Libc, item: Item, c: bytes)
    requires Printable(item, NESTING_LIMIT) && c == From(false, Pretty(k, item, 0)) + [0]
    ensures AfterBom(c) == 0
  {
    hide From;
    TextStarts(k, Uniform, item, 0, true, NESTING_LIMIT);
    SlashStarts(k, item, 0, NESTING_LIMIT);
    FrontStays(false, Pretty(k, item, 0));
    assert |c| > 3 ==> c[..3][0] == c[0];
  }

  // ---- What it may come to mean ----

  /** An array of a backslash and one more string. */
  function Pair(s: bytes): Item {
    Array([String([BACKSLASH]), String(s)])
  }

  function Unspaced(s: bytes): bytes {
    if s == [] then [] else (if s[0] == 32 then [] else [s[0]]) + Unspaced(s[1..])
  }

  lemma PairText(k: Libc, s: bytes)
    ensures Pretty(k, Pair(s), 0)
      == ['[' as int] + (Quoted([BACKSLASH]) + (Separator(true) + (Quoted(s) + ([']' as int] + []))))
  {
    hide EscapeAll, Quoted, StyledItems, Separator;
    var items, end := Pair(s).items, [']' as int] + [];
    assert Pretty(k, Pair(s), 0) + [] == Pretty(k, Pair(s), 0);
    ArraySplit(k, Uniform, Pair(s), 0, true, []);
    ItemsSplit(k, Uniform, items, 1, true, end);
    assert items[1..] == [String(s)];
    ItemsSplit(k, Uniform, [String(s)], 1, true, end);
  }

  /** A string without quotes and slashes that is read as if it stood outside of one loses its blanks. */
  lemma {:induction false} Squeezed(s: bytes, rest: bytes)
    requires QUOTE !in s && SLASH !in s
    ensures Minify(EscapeAll(s) + ([QUOTE] + rest)) == EscapeAll(Unspaced(s)) + ([QUOTE] + From(true, rest))
  {
    hide Minify, EscapeAll, Escape, From;
    var tail, after := [QUOTE] + rest, [QUOTE] + From(true, rest);
    AllEscaped(s, tail);
    if s == [] {
      FromQuote(false, rest);
      MinifyIsFrom(tail);
      assert [] + tail == tail && [] + after == after;
    } else {
      assert QUOTE !in s[1..] && SLASH !in s[1..];
      var more := EscapeAll(s[1..]) + tail;
      Squeezed(s[1..], rest);
      if s[0] == 32 {
        SpaceEscape();
        MinifyBlanks([32], more);
        assert Unspaced(s) == Unspaced(s[1..]);
      } else {
        EscapeKept(s[0], more);
        assert Unspaced(s) == [s[0]] + Unspaced(s[1..]);
        AllEscaped(Unspaced(s), after);
        assert Unspaced(s)[1..] == Unspaced(s[1..]);
      }
    }
  }

  lemma SpaceEscape()
    ensures Escape(32) == [32] && IsBlank(32)
  {
  }

  lemma PairSqueezes(k: Libc, s: bytes)
    requires QUOTE !in s && SLASH !in s
    ensures Minify(Pretty(k, Pair(s), 0)) == Pretty(k, Pair(Unspaced(s)), 0)
  {
    hide From, Styled, Minify, EscapeAll, Quoted, Separator;
    var end := [']' as int] + [];
    PairText(k, s);
    PairText(k, Unspaced(s));
    MinifyIsFrom(Pretty(k, Pair(s), 0));
    FromPlain(false, ['[' as int], Quoted([BACKSLASH]) + (Separator(true) + (Quoted(s) + end)));
    FromString([BACKSLASH], false, Separator(true) + (Quoted(s) + end));
    FromSeparator(true, Quoted(s) + end);
    QuotedSplit(s, end);
    QuotedSplit(Unspaced(s), end);
    FromQuote(true, EscapeAll(s) + ([QUOTE] + end));
    MinifyIsFrom(EscapeAll(s) + ([QUOTE] + end));
    Squeezed(s, end);
    FromPlain(true, [']' as int], []);
    NothingLeft(true);
  }

  lemma PairIsPrintable(s: bytes)
    requires NulFree(s)
    ensures Printable(Pair(s), NESTING_LIMIT)
  {
    var items := Pair(s).items;
    assert items[1..] == [String(s)] && [String(s)][1..] == [];
    assert PrintableItems([], NESTING_LIMIT - 1) && PrintableItems([String(s)], NESTING_LIMIT - 1);
    assert Printable(items[0], NESTING_LIMIT - 1) && PrintableItems(items, NESTING_LIMIT - 1);
  }

  /** For every second string without quotes and slashes: the minified text stands for the one without its blanks. */
  lemma PairIsSqueezed(k: Libc, s: bytes, requireNul: bool)
    requires ReadsInts(k) && NulFree(s) && QUOTE !in s && SLASH !in s
    ensures var text := Minify(ItemText(k, Pair(s), true, 0));
      ParseDocument(k, text + [0], requireNul) == Ok(Pair(Unspaced(s)), |text|)
    ensures Pair(Unspaced(s)) == Pair(s) <==> 32 !in s
  {
    hide Styled, ItemText, Minify, ParseDocument, Printable;
    var t := Unspaced(s);
    PrintedIsUniform(k, Pair(s), 0, true);
    PrintedIsUniform(k, Pair(t), 0, true);
    PairSqueezes(k, s);
    UnspacedIsShorter(s);
    PairIsPrintable(t);
    TerminatedRoundTrip(k, Pair(t), true, requireNul);
    assert Pair(t).items[1] == String(t) && Pair(s).items[1] == String(s);
  }

  lemma {:induction false} UnspacedIsShorter(s: bytes)
    ensures NulFree(s) ==> NulFree(Unspaced(s))
    ensures |Unspaced(s)| <= |s| && (32 !in s ==> Unspaced(s) == s) && (32 in s ==> |Unspaced(s)| < |s|)
  {
    if s != [] {
      UnspacedIsShorter(s[1..]);
      assert s == [s[0]] + s[1..];
    }
  }
}
