/** What cJSON_Minify makes of the texts that cJSON_Print writes. */
module JsonMinifyText {
  import opened JsonText
  import opened JsonRoundTrip
  import opened JsonMinify

  // ---- Where the scanner ends a printed string ----

  predicate EndsInBackslash(s: bytes) {
    s != [] && s[|s| - 1] == BACKSLASH
  }

  lemma {:induction false} PlainPasses(p: bytes, tail: bytes)
    requires QUOTE !in p && BACKSLASH !in p
    ensures StringLen(p + tail) == Plus(|p|, StringLen(tail))
  {
    if p == [] {
      assert p + tail == tail;
    } else {
      assert (p + tail)[1..] == p[1..] + tail;
      PlainPasses(p[1..], tail);
    }
  }

  lemma ShortEscapePasses(b: byte, tail: bytes)
    requires tail != [] && (b == BACKSLASH ==> tail[0] != QUOTE)
    ensures StringLen([BACKSLASH, b] + tail) == Plus(2, StringLen(tail))
  {
    var t := [BACKSLASH, b] + tail;
    assert t[2..] == tail && t[1..][1..] == tail && t[1..][0] == b;
    assert t[1..][1] == tail[0];
  }

  /** An escaped byte is the byte itself, a backslash and one byte, or a backslash and a 'u' with four digits. */
  lemma EscapeForm(b: byte)
    ensures var e := Escape(b); |e| == 1 || |e| == 2 || |e| == 6
    ensures var e := Escape(b);
      && (|e| == 1 ==> QUOTE !in e && BACKSLASH !in e)
      && (|e| == 2 ==> e == [BACKSLASH, e[1]] && (e[1] == BACKSLASH ==> b == BACKSLASH))
      && (|e| == 6 ==> e == [BACKSLASH, 'u' as int] + e[2..] && QUOTE !in e[2..] && BACKSLASH !in e[2..])
  {
  }

  /** One escaped byte, where it does not stand right before the closing quote as a backslash. */
  lemma EscapePasses(b: byte, tail: bytes)
    requires tail != [] && (b == BACKSLASH ==> tail[0] != QUOTE)
    ensures StringLen(Escape(b) + tail) == Plus(|Escape(b)|, StringLen(tail))
  {
    hide StringLen, Escape;
    EscapeForm(b);
    var e := Escape(b);
    if |e| == 1 {
      PlainPasses(e, tail);
    } else if |e| == 2 {
      ShortEscapePasses(e[1], tail);
    } else {
      var rest := e[2..] + tail;
      PlainPasses(e[2..], tail);
      ShortEscapePasses('u' as int, rest);
      assert e + tail == [BACKSLASH, 'u' as int] + rest;
    }
  }

  lemma LastBackslash(rest: bytes)
    ensures StringLen([BACKSLASH, BACKSLASH, QUOTE] + rest) == Plus(3, StringLen(rest))
  {
    var t := [BACKSLASH, BACKSLASH, QUOTE] + rest;
    assert t[1..][0] == BACKSLASH && t[1..][1] == QUOTE && t[1..][2..] == rest;
  }

  lemma FrontIsNoQuote(b: byte)
    ensures Escape(b)[0] != QUOTE
  {
  }

  lemma EscapedFront(s: bytes, rest: bytes)
    requires s != []
    ensures EscapeAll(s) != [] && EscapeAll(s)[0] != QUOTE && |EscapeAll(s)| == |Escape(s[0])| + |EscapeAll(s[1..])|
    ensures EscapeAll(s) + rest == Escape(s[0]) + (EscapeAll(s[1..]) + rest)
  {
    hide Escape;
    FrontIsNoQuote(s[0]);
    assert EscapeAll(s)[0] == Escape(s[0])[0];
  }

  /**
   * The scanner ends a printed string at its closing quote if the string does not end in a backslash,
   * and otherwise takes that quote for an escaped one and runs on.
   */
  lemma {:induction false} StringScan(s: bytes, rest: bytes)
    ensures StringLen(EscapeAll(s) + ([QUOTE] + rest))
      == if EndsInBackslash(s) then Plus(|EscapeAll(s)| + 1, StringLen(rest)) else Some(|EscapeAll(s)| + 1)
  {
    hide Escape, StringLen, EscapeAll;
    if s == [] {
      NothingEscaped();
      QuoteStops(rest);
      assert [] + ([QUOTE] + rest) == [QUOTE] + rest;
    } else if s == [BACKSLASH] {
      LastBackslash(rest);
      BackslashText();
      assert [BACKSLASH, BACKSLASH] + ([QUOTE] + rest) == [BACKSLASH, BACKSLASH, QUOTE] + rest;
    } else {
      EscapedFront(s, [QUOTE] + rest);
      if s[0] == BACKSLASH {
        EscapedFront(s[1..], [QUOTE] + rest);
      }
      EscapePasses(s[0], EscapeAll(s[1..]) + ([QUOTE] + rest));
      StringScan(s[1..], rest);
    }
  }

  lemma NothingEscaped()
    ensures EscapeAll([]) == []
  {
  }

  lemma QuoteStops(rest: bytes)
    ensures StringLen([QUOTE] + rest) == Some(1)
  {
  }

  lemma BackslashText()
    ensures EscapeAll([BACKSLASH]) == [BACKSLASH, BACKSLASH]
  {
  }

  // ---- Pieces of a text, in step and out of step ----

  /** What is left of `t`, whether the scanner takes the front of it for the inside of a string or not. */
  function From(inside: bool, t: bytes): bytes {
    if !inside then Minify(t)
    else match StringLen(t)
      case Some(n) => t[..n] + Minify(t[n..])
      case None => t
  }

  predicate Keeps(b: byte) {
    !IsBlank(b) && b != SLASH && b != QUOTE
  }

  lemma {:induction false} MinifyPlain(p: bytes, rest: bytes)
    requires forall i :: 0 <= i < |p| ==> Keeps(p[i])
    ensures Minify(p + rest) == p + Minify(rest)
  {
    if p == [] {
      assert p + rest == rest;
    } else {
      assert (p + rest)[1..] == p[1..] + rest;
      MinifyPlain(p[1..], rest);
    }
  }

  lemma {:induction false} MinifyBlanks(p: bytes, rest: bytes)
    requires forall i :: 0 <= i < |p| ==> IsBlank(p[i])
    ensures Minify(p + rest) == Minify(rest)
  {
    if p == [] {
      assert p + rest == rest;
    } else {
      assert (p + rest)[1..] == p[1..] + rest;
      MinifyBlanks(p[1..], rest);
    }
  }

  lemma InsidePlain(p: bytes, rest: bytes)
    requires QUOTE !in p && BACKSLASH !in p
    ensures From(true, p + rest) == p + From(true, rest)
  {
    hide StringLen, Minify;
    PlainPasses(p, rest);
    if StringLen(rest).Some? {
      var n := StringLen(rest).value;
      assert (p + rest)[..|p| + n] == p + rest[..n] && (p + rest)[|p| + n..] == rest[n..];
    }
  }

  /** Bytes that are neither blanks nor slashes, quotes or backslashes stay, in step or not. */
  lemma FromPlain(inside: bool, p: bytes, rest: bytes)
    requires BACKSLASH !in p && forall i :: 0 <= i < |p| ==> Keeps(p[i])
    ensures From(inside, p + rest) == p + From(inside, rest)
  {
    hide Minify, StringLen;
    if inside {
      InsidePlain(p, rest);
    } else {
      MinifyPlain(p, rest);
    }
  }

  /** Blanks stay only out of step. */
  lemma FromBlanks(inside: bool, p: bytes, rest: bytes)
    requires forall i :: 0 <= i < |p| ==> IsBlank(p[i])
    ensures From(inside, p + rest) == (if inside then p else []) + From(inside, rest)
  {
    hide Minify, StringLen;
    if inside {
      InsidePlain(p, rest);
    } else {
      MinifyBlanks(p, rest);
    }
  }

  /** A quote opens a string in step and closes one out of step. */
  lemma FromQuote(inside: bool, rest: bytes)
    ensures From(inside, [QUOTE] + rest) == [QUOTE] + From(!inside, rest)
  {
    var t := [QUOTE] + rest;
    assert t[1..] == rest;
    if inside {
      assert t[..1] == [QUOTE];
    } else if StringLen(rest).Some? {
      var n := StringLen(rest).value;
      assert t[..n + 1] == [QUOTE] + rest[..n] && t[n + 1..] == rest[n..];
    }
  }

  /** The scanner is in the string: it copies it, and is out of step behind it if the string ends in a backslash. */
  lemma FromInside(s: bytes, rest: bytes)
    ensures From(true, EscapeAll(s) + ([QUOTE] + rest)) == EscapeAll(s) + ([QUOTE] + From(EndsInBackslash(s), rest))
  {
    hide Minify, StringLen, EscapeAll, EndsInBackslash;
    var e, t := EscapeAll(s), EscapeAll(s) + ([QUOTE] + rest);
    StringScan(s, rest);
    assert t[..|e| + 1] == e + [QUOTE] && t[|e| + 1..] == rest;
    if EndsInBackslash(s) && StringLen(rest).Some? {
      var n := StringLen(rest).value;
      assert t[..|e| + 1 + n] == e + ([QUOTE] + rest[..n]) && t[|e| + 1 + n..] == rest[n..];
    }
  }

  // ---- Strings that the scanner enters out of step ----

  /** Whether the scanner is out of step behind the string, given whether it was before. */
  function Misread(s: bytes, inside: bool): bool {
    if inside && QUOTE !in s then true else EndsInBackslash(s)
  }

  /** No blank and no slash stands before the first quote. */
  predicate Untouched(s: bytes) {
    s == [] || s[0] == QUOTE || (s[0] != 32 && s[0] != SLASH && Untouched(s[1..]))
  }

  /** The scanner takes nothing out of the string. */
  predicate Survives(s: bytes, inside: bool) {
    inside ==> Untouched(s)
  }

  lemma EscapeKept(b: byte, tail: bytes)
    requires b != 32 && b != SLASH && b != QUOTE
    ensures Minify(Escape(b) + tail) == Escape(b) + Minify(tail)
  {
    hide Minify;
    EscapeKeeps(b);
    MinifyPlain(Escape(b), tail);
  }

  lemma EscapeKeeps(b: byte)
    requires b != 32 && b != SLASH && b != QUOTE
    ensures forall i :: 0 <= i < |Escape(b)| ==> Keeps(Escape(b)[i])
  {
  }

  lemma EscapedQuote()
    ensures Escape(QUOTE) == [BACKSLASH, QUOTE]
  {
  }

  lemma LaterQuote(s: bytes)
    requires s != [] && s[0] != QUOTE
    ensures QUOTE in s <==> QUOTE in s[1..]
    ensures QUOTE in s ==> EndsInBackslash(s) == EndsInBackslash(s[1..])
  {
    assert s == [s[0]] + s[1..];
  }

  lemma AllEscaped(s: bytes, rest: bytes)
    ensures EscapeAll([]) == []
    ensures s != [] ==> EscapeAll(s) + rest == Escape(s[0]) + (EscapeAll(s[1..]) + rest)
  {
    hide Escape;
  }

  /** A string that is read as if it stood outside of one, up to and over its closing quote. */
  lemma {:induction false} FromOutside(s: bytes, rest: bytes)
    requires Untouched(s)
    ensures Minify(EscapeAll(s) + ([QUOTE] + rest)) == EscapeAll(s) + ([QUOTE] + From(Misread(s, true), rest))
  {
    hide Minify, StringLen, EscapeAll, Escape, From, EndsInBackslash, Untouched;
    var tail := [QUOTE] + rest;
    AllEscaped(s, tail);
    if s == [] {
      FromQuote(false, rest);
      MinifyIsFrom(tail);
      assert [] + tail == tail;
    } else {
      AllEscaped(s, [QUOTE] + From(Misread(s, true), rest));
      if s[0] == QUOTE {
        var inner := EscapeAll(s[1..]) + tail;
        EscapedQuote();
        BackslashStays([QUOTE] + inner);
        FromQuote(false, inner);
        MinifyIsFrom([QUOTE] + inner);
        FromInside(s[1..], rest);
        QuoteFirst(s);
        assert [BACKSLASH, QUOTE] + inner == [BACKSLASH] + ([QUOTE] + inner);
        var after := EscapeAll(s[1..]) + ([QUOTE] + From(Misread(s, true), rest));
        assert [BACKSLASH, QUOTE] + after == [BACKSLASH] + ([QUOTE] + after);
      } else {
        UntouchedStep(s);
        LaterQuote(s);
        EscapeKept(s[0], EscapeAll(s[1..]) + tail);
        FromOutside(s[1..], rest);
      }
    }
  }

  lemma UntouchedStep(s: bytes)
    requires Untouched(s) && s != [] && s[0] != QUOTE
    ensures s[0] != 32 && s[0] != SLASH && Untouched(s[1..])
  {
  }

  lemma MinifyIsFrom(t: bytes)
    ensures From(false, t) == Minify(t)
  {
  }

  lemma BackslashStays(rest: bytes)
    ensures Minify([BACKSLASH] + rest) == [BACKSLASH] + Minify(rest)
  {
    MinifyPlain([BACKSLASH], rest);
  }

  lemma QuoteFirst(s: bytes)
    requires s != [] && s[0] == QUOTE
    ensures Misread(s, true) == EndsInBackslash(s[1..])
  {
  }

  lemma QuotedSplit(s: bytes, rest: bytes)
    ensures Quoted(s) + rest == [QUOTE] + (EscapeAll(s) + ([QUOTE] + rest))
  {
    hide EscapeAll;
  }

  /** A string that survives, with what follows it. */
  lemma FromString(s: bytes, inside: bool, rest: bytes)
    requires Survives(s, inside)
    ensures From(inside, Quoted(s) + rest) == Quoted(s) + From(Misread(s, inside), rest)
  {
    hide Minify, StringLen, EscapeAll, Quoted, EndsInBackslash, From, Untouched;
    var t := EscapeAll(s) + ([QUOTE] + rest);
    QuotedSplit(s, rest);
    QuotedSplit(s, From(Misread(s, inside), rest));
    FromQuote(inside, t);
    if inside {
      MinifyIsFrom(t);
      FromOutside(s, rest);
    } else {
      FromInside(s, rest);
    }
  }

  // ---- Texts taken apart ----

  lemma ArraySplit(k: Libc, f: Style, item: Item, column: nat, spaced: bool, rest: bytes)
    requires item.Array?
    ensures Styled(k, f, item, column, spaced) + rest
      == ['[' as int] + (StyledItems(k, f, item.items, column + 1, spaced) + ([']' as int] + rest))
  {
    hide StyledItems;
  }

  lemma ItemsSplit(k: Libc, f: Style, items: seq<Item>, column: nat, spaced: bool, rest: bytes)
    requires items != []
    ensures var next := After(f, items[0], spaced);
      StyledItems(k, f, items, column, spaced) + rest == Styled(k, f, items[0], column, spaced)
        + if |items| == 1 then rest else Separator(next) + (StyledItems(k, f, items[1..], column, next) + rest)
  {
    hide Styled, After;
    if |items| == 1 {
      NoItemsStyled(k, f, column, After(f, items[0], spaced));
    }
  }

  lemma NoItemsStyled(k: Libc, f: Style, column: nat, spaced: bool)
    ensures StyledItems(k, f, [], column, spaced) == []
  {
  }

  lemma ObjectSplit(k: Libc, f: Style, item: Item, column: nat, spaced: bool, rest: bytes)
    requires item.Object?
    ensures var next := AfterMembers(f, item.members, spaced);
      Styled(k, f, item, column, spaced) + rest
        == Brace(spaced)
          + (StyledMembers(k, f, item.members, column + 1, spaced) + (Indent(column, next) + (['}' as int] + rest)))
  {
    hide StyledMembers, AfterMembers, Indent;
  }

  lemma MembersSplit(k: Libc, f: Style, members: seq<Member>, column: nat, spaced: bool, rest: bytes)
    requires members != []
    ensures StyledMembers(k, f, members, column, spaced) + rest
      == StyledMember(k, f, members[0], |members| == 1, column, spaced)
         + (StyledMembers(k, f, members[1..], column, AfterMember(f, members[0], spaced)) + rest)
  {
    hide StyledMember, AfterMember;
  }

  lemma MemberSplit(k: Libc, f: Style, m: Member, last: bool, column: nat, spaced: bool, rest: bytes)
    ensures var inside := f(m.key, spaced);
      StyledMember(k, f, m, last, column, spaced) + rest
        == Indent(column, spaced) + (Quoted(m.key) + (Colon(inside)
           + (Styled(k, f, m.item, column, inside) + (LineEnd(last, After(f, m.item, inside)) + rest))))
  {
    hide Styled, After, Indent, Quoted, LineEnd;
  }

  // ---- Which items survive ----

  /** The scanner takes nothing out of any string or key of the item. */
  predicate ItemSurvives(item: Item, inside: bool)
    decreases item, 1
  {
    match item
    case String(s) => Survives(s, inside)
    case Array(items) => ItemsSurvive(items, inside)
    case Object(members) => MembersSurvive(members, inside)
    case _ => true
  }

  predicate ItemsSurvive(items: seq<Item>, inside: bool)
    decreases items, 0
  {
    items == [] || (ItemSurvives(items[0], inside) && ItemsSurvive(items[1..], After(Misread, items[0], inside)))
  }

  predicate MemberSurvives(m: Member, inside: bool)
    decreases m, 2
  {
    Survives(m.key, inside) && ItemSurvives(m.item, Misread(m.key, inside))
  }

  predicate MembersSurvive(members: seq<Member>, inside: bool)
    decreases members, 0
  {
    members == []
      || (MemberSurvives(members[0], inside) && MembersSurvive(members[1..], AfterMember(Misread, members[0], inside)))
  }

  // The blanks between strings stay exactly out of step.

  lemma FromBrace(inside: bool, rest: bytes)
    ensures From(inside, Brace(true) + rest) == Brace(inside) + From(inside, rest)
  {
    hide From;
    FromBlanks(inside, [10], rest);
    FromPlain(inside, ['{' as int], [10] + rest);
    assert Brace(true) + rest == ['{' as int] + ([10] + rest);
    assert ['{' as int] + ([10] + From(inside, rest)) == ['{' as int, 10] + From(inside, rest);
    assert ['{' as int] + ([] + From(inside, rest)) == ['{' as int] + From(inside, rest);
  }

  lemma FromSeparator(inside: bool, rest: bytes)
    ensures From(inside, Separator(true) + rest) == Separator(inside) + From(inside, rest)
  {
    hide From;
    FromBlanks(inside, [32], rest);
    FromPlain(inside, [',' as int], [32] + rest);
    assert Separator(true) + rest == [',' as int] + ([32] + rest);
    assert [',' as int] + ([32] + From(inside, rest)) == [',' as int, 32] + From(inside, rest);
    assert [',' as int] + ([] + From(inside, rest)) == [',' as int] + From(inside, rest);
  }

  lemma FromColon(inside: bool, rest: bytes)
    ensures From(inside, Colon(true) + rest) == Colon(inside) + From(inside, rest)
  {
    hide From;
    FromBlanks(inside, [9], rest);
    FromPlain(inside, [':' as int], [9] + rest);
    assert Colon(true) + rest == [':' as int] + ([9] + rest);
    assert [':' as int] + ([9] + From(inside, rest)) == [':' as int, 9] + From(inside, rest);
    assert [':' as int] + ([] + From(inside, rest)) == [':' as int] + From(inside, rest);
  }

  lemma FromIndent(inside: bool, column: nat, rest: bytes)
    ensures From(inside, Indent(column, true) + rest) == Indent(column, inside) + From(inside, rest)
  {
    hide From;
    FromBlanks(inside, Indent(column, true), rest);
  }

  lemma FromLineEnd(inside: bool, last: bool, rest: bytes)
    ensures From(inside, LineEnd(last, true) + rest) == LineEnd(last, inside) + From(inside, rest)
  {
    hide From;
    var comma: bytes := if last then [] else [',' as int];
    FromBlanks(inside, [10], rest);
    FromPlain(inside, comma, [10] + rest);
    assert LineEnd(last, true) + rest == comma + ([10] + rest);
    assert comma + ([10] + From(inside, rest)) == comma + [10] + From(inside, rest);
    assert comma + ([] + From(inside, rest)) == comma + [] + From(inside, rest);
  }

  lemma DecimalKeeps(n: int)
    ensures BACKSLASH !in Decimal(n) && forall i :: 0 <= i < |Decimal(n)| ==> Keeps(Decimal(n)[i])
  {
  }

  lemma KeywordsKeep(inside: bool, rest: bytes)
    ensures From(inside, Ascii("null") + rest) == Ascii("null") + From(inside, rest)
    ensures From(inside, Ascii("false") + rest) == Ascii("false") + From(inside, rest)
    ensures From(inside, Ascii("true") + rest) == Ascii("true") + From(inside, rest)
  {
    hide From;
    FromPlain(inside, Ascii("null"), rest);
    FromPlain(inside, Ascii("false"), rest);
    FromPlain(inside, Ascii("true"), rest);
  }

  /**
   * Of an item that survives, the minifier leaves the text that has its blanks exactly where the scanner is out of
   * step.
   */
  lemma {:induction false} FromItem(k: Libc, item: Item, column: nat, inside: bool, rest: bytes, levels: int)
    requires Printable(item, levels) && ItemSurvives(item, inside)
    ensures From(inside, Styled(k, Uniform, item, column, true) + rest)
      == Styled(k, Misread, item, column, inside) + From(After(Misread, item, inside), rest)
    decreases item, 1
  {
    hide From, Keeps, Decimal, Quoted, Survives;
    match item
    case Null => KeywordsKeep(inside, rest);
    case False => KeywordsKeep(inside, rest);
    case True => KeywordsKeep(inside, rest);
    case Number(v) =>
      DecimalKeeps(IntOf(v));
      FromPlain(inside, Decimal(IntOf(v)), rest);
    case String(s) => FromString(s, inside, rest);
    case Array(items) => FromArray(k, item, column, inside, rest, levels);
    case Object(members) => FromObject(k, item, column, inside, rest, levels);
  }

  lemma {:induction false} FromArray(k: Libc, item: Item, column: nat, inside: bool, rest: bytes, levels: int)
    requires item.Array? && Printable(item, levels) && ItemSurvives(item, inside)
    ensures From(inside, Styled(k, Uniform, item, column, true) + rest)
      == Styled(k, Misread, item, column, inside) + From(After(Misread, item, inside), rest)
    decreases item, 0
  {
    hide From, Styled, StyledItems, AfterItems, Misread;
    var items, next := item.items, AfterItems(Misread, item.items, inside);
    ArraySplit(k, Uniform, item, column, true, rest);
    ArraySplit(k, Misread, item, column, inside, From(next, rest));
    FromPlain(inside, ['[' as int], StyledItems(k, Uniform, items, column + 1, true) + ([']' as int] + rest));
    FromItems(k, items, column + 1, inside, [']' as int] + rest, levels - 1);
    FromPlain(next, [']' as int], rest);
  }

  lemma {:induction false} FromItems(k: Libc, items: seq<Item>, column: nat, inside: bool, rest: bytes, levels: int)
    requires PrintableItems(items, levels) && ItemsSurvive(items, inside)
    ensures From(inside, StyledItems(k, Uniform, items, column, true) + rest)
      == StyledItems(k, Misread, items, column, inside) + From(AfterItems(Misread, items, inside), rest)
    decreases items, 0
  {
    if items == [] {
      assert StyledItems(k, Uniform, items, column, true) + rest == rest;
    } else {
      hide From, Styled, StyledItems, After, Misread, Separator;
      var next := After(Misread, items[0], inside);
      var more := StyledItems(k, Uniform, items[1..], column, true) + rest;
      UniformAfter(items[0], true);
      ItemsSplit(k, Uniform, items, column, true, rest);
      ItemsSplit(k, Misread, items, column, inside, From(AfterItems(Misread, items, inside), rest));
      FromItem(k, items[0], column, inside, if |items| == 1 then rest else Separator(true) + more, levels);
      if |items| > 1 {
        FromSeparator(next, more);
        FromItems(k, items[1..], column, next, rest, levels);
      }
    }
  }

  lemma {:induction false} FromObject(k: Libc, item: Item, column: nat, inside: bool, rest: bytes, levels: int)
    requires item.Object? && Printable(item, levels) && ItemSurvives(item, inside)
    ensures From(inside, Styled(k, Uniform, item, column, true) + rest)
      == Styled(k, Misread, item, column, inside) + From(After(Misread, item, inside), rest)
    decreases item, 0
  {
    hide From, Styled, StyledMembers, AfterMembers, Misread, Brace, Indent;
    var members, next := item.members, AfterMembers(Misread, item.members, inside);
    var end := ['}' as int] + rest;
    UniformAfterMembers(members, true);
    ObjectSplit(k, Uniform, item, column, true, rest);
    ObjectSplit(k, Misread, item, column, inside, From(next, rest));
    FromBrace(inside, StyledMembers(k, Uniform, members, column + 1, true) + (Indent(column, true) + end));
    FromMembers(k, members, column + 1, inside, Indent(column, true) + end, levels - 1);
    FromIndent(next, column, end);
    FromPlain(next, ['}' as int], rest);
  }

  lemma {:induction false} FromMembers(k: Libc, members: seq<Member>, column: nat, inside: bool, rest: bytes,
    levels: int)
    requires PrintableMembers(members, levels) && MembersSurvive(members, inside)
    ensures From(inside, StyledMembers(k, Uniform, members, column, true) + rest)
      == StyledMembers(k, Misread, members, column, inside) + From(AfterMembers(Misread, members, inside), rest)
    decreases members, 0
  {
    if members == [] {
      assert StyledMembers(k, Uniform, members, column, true) + rest == rest;
    } else {
      hide From, StyledMember, StyledMembers, After, Misread;
      var m, last, next := members[0], |members| == 1, AfterMember(Misread, members[0], inside);
      UniformAfter(m.item, true);
      MembersSplit(k, Uniform, members, column, true, rest);
      MembersSplit(k, Misread, members, column, inside, From(AfterMembers(Misread, members, inside), rest));
      FromMember(k, m, last, column, inside, StyledMembers(k, Uniform, members[1..], column, true) + rest, levels);
      FromMembers(k, members[1..], column, next, rest, levels);
    }
  }

  lemma {:induction false} FromMember(k: Libc, m: Member, last: bool, column: nat, inside: bool, rest: bytes,
    levels: int)
    requires Printable(m.item, levels) && MemberSurvives(m, inside)
    ensures From(inside, StyledMember(k, Uniform, m, last, column, true) + rest)
      == StyledMember(k, Misread, m, last, column, inside) + From(AfterMember(Misread, m, inside), rest)
    decreases m, 2
  {
    hide From, Styled, StyledMember, After, Misread, Survives, Quoted, Colon, Indent, LineEnd, Printable, ItemSurvives;
    var within := Misread(m.key, inside);
    var next := After(Misread, m.item, within);
    var end := LineEnd(last, true) + rest;
    var value := Styled(k, Uniform, m.item, column, true) + end;
    UniformAfter(m.item, true);
    MemberSplit(k, Uniform, m, last, column, true, rest);
    MemberSplit(k, Misread, m, last, column, inside, From(next, rest));
    FromIndent(inside, column, Quoted(m.key) + (Colon(true) + value));
    FromString(m.key, inside, Colon(true) + value);
    FromColon(within, value);
    FromItem(k, m.item, column, within, end, levels);
    FromLineEnd(next, last, rest);
  }

  // ---- Where the formatted text becomes the unformatted one ----

  function Pretty(k: Libc, item: Item, column: nat): bytes {
    Styled(k, Uniform, item, column, true)
  }

  function Plain(k: Libc, item: Item, column: nat): bytes {
    Styled(k, Uniform, item, column, false)
  }

  /** No string and no key in the item ends in a backslash. */
  predicate Minifiable(item: Item)
    decreases item, 1
  {
    match item
    case String(s) => !EndsInBackslash(s)
    case Array(items) => MinifiableItems(items)
    case Object(members) => MinifiableMembers(members)
    case _ => true
  }

  predicate MinifiableItems(items: seq<Item>)
    decreases items, 0
  {
    items == [] || (Minifiable(items[0]) && MinifiableItems(items[1..]))
  }

  predicate MinifiableMember(m: Member)
    decreases m, 2
  {
    !EndsInBackslash(m.key) && Minifiable(m.item)
  }

  predicate MinifiableMembers(members: seq<Member>)
    decreases members, 0
  {
    members == [] || (MinifiableMember(members[0]) && MinifiableMembers(members[1..]))
  }

  /**
   * No string and no key ends in a backslash, except a string with nothing but closing brackets of arrays behind it:
   * no blank follows that one.
   */
  predicate Clean(item: Item)
    decreases item, 1
  {
    match item
    case String(s) => true
    case Array(items) => CleanItems(items)
    case _ => Minifiable(item)
  }

  predicate CleanItems(items: seq<Item>)
    decreases items, 0
  {
    if items == [] then true
    else if |items| == 1 then Clean(items[0])
    else Minifiable(items[0]) && CleanItems(items[1..])
  }

  lemma {:induction false} MinifiableIsPlain(k: Libc, item: Item, column: nat)
    requires Minifiable(item)
    ensures ItemSurvives(item, false) && !After(Misread, item, false)
    ensures Styled(k, Misread, item, column, false) == Plain(k, item, column)
    decreases item, 1
  {
    match item
    case Array(items) => MinifiableItemsArePlain(k, items, column + 1);
    case Object(members) =>
      MinifiableMembersArePlain(k, members, column + 1);
      UniformAfterMembers(members, false);
    case _ =>
  }

  lemma {:induction false} MinifiableItemsArePlain(k: Libc, items: seq<Item>, column: nat)
    requires MinifiableItems(items)
    ensures ItemsSurvive(items, false) && !AfterItems(Misread, items, false)
    ensures StyledItems(k, Misread, items, column, false) == StyledItems(k, Uniform, items, column, false)
    decreases items, 0
  {
    if items != [] {
      MinifiableIsPlain(k, items[0], column);
      MinifiableItemsArePlain(k, items[1..], column);
      UniformAfter(items[0], false);
    }
  }

  lemma {:induction false} MinifiableMembersArePlain(k: Libc, members: seq<Member>, column: nat)
    requires MinifiableMembers(members)
    ensures MembersSurvive(members, false) && !AfterMembers(Misread, members, false)
    ensures StyledMembers(k, Misread, members, column, false) == StyledMembers(k, Uniform, members, column, false)
    decreases members, 0
  {
    if members != [] {
      MinifiableIsPlain(k, members[0].item, column);
      MinifiableMembersArePlain(k, members[1..], column);
      UniformAfter(members[0].item, false);
      assert !Misread(members[0].key, false) && MemberSurvives(members[0], false);
      assert !AfterMember(Misread, members[0], false);
    }
  }

  lemma {:induction false} CleanIsPlain(k: Libc, item: Item, column: nat)
    requires Clean(item)
    ensures ItemSurvives(item, false) && Styled(k, Misread, item, column, false) == Plain(k, item, column)
    decreases item, 1
  {
    match item
    case String(s) =>
    case Array(items) => CleanItemsArePlain(k, items, column + 1);
    case _ => MinifiableIsPlain(k, item, column);
  }

  lemma {:induction false} CleanItemsArePlain(k: Libc, items: seq<Item>, column: nat)
    requires CleanItems(items)
    ensures ItemsSurvive(items, false)
    ensures StyledItems(k, Misread, items, column, false) == StyledItems(k, Uniform, items, column, false)
    decreases items, 0
  {
    if |items| == 1 {
      CleanIsPlain(k, items[0], column);
    } else if items != [] {
      MinifiableIsPlain(k, items[0], column);
      CleanItemsArePlain(k, items[1..], column);
      UniformAfter(items[0], false);
    }
  }

  // ---- And only there ----

  /** `a` has a blank where `e`, the same up to there, has none. */
  ghost predicate Differs(a: bytes, e: bytes) {
    exists i: nat :: BlankAt(a, e, i)
  }

  predicate BlankAt(a: bytes, e: bytes, i: nat) {
    i < |a| && i <= |e| && a[..i] == e[..i] && IsBlank(a[i]) && (i < |e| ==> !IsBlank(e[i]))
  }

  lemma DiffersAfter(p: bytes, a: bytes, e: bytes)
    requires Differs(a, e)
    ensures Differs(p + a, p + e)
  {
    var i: nat :| BlankAt(a, e, i);
    assert (p + a)[..|p| + i] == p + a[..i] && (p + e)[..|p| + i] == p + e[..i];
    assert BlankAt(p + a, p + e, |p| + i);
  }

  /** A blank comes before the next quote in `a`, and `e` has none there. */
  predicate Gap(a: bytes, e: bytes, j: nat) {
    BlankAt(a, e, j) && QUOTE !in a[..j] && BACKSLASH !in a[..j]
  }

  lemma GapAfter(b: byte, a: bytes, e: bytes, j: nat)
    requires Gap(a, e, j) && b != QUOTE && b != BACKSLASH
    ensures Gap([b] + a, [b] + e, j + 1)
  {
    assert ([b] + a)[..j + 1] == [b] + a[..j] && ([b] + e)[..j + 1] == [b] + e[..j];
  }

  /** The scanner does not stop before the blank. */
  lemma StringRunsOn(a: bytes, e: bytes, j: nat)
    requires Gap(a, e, j)
    ensures StringLen(a).Some? ==> StringLen(a).value > j + 1
  {
    assert a == a[..j] + ([a[j]] + a[j + 1..]);
    PlainPasses(a[..j], [a[j]] + a[j + 1..]);
    assert ([a[j]] + a[j + 1..])[1..] == a[j + 1..];
  }

  /** Inside of a string, the blank stays. */
  lemma GapStays(a: bytes, e: bytes, j: nat)
    requires Gap(a, e, j)
    ensures Differs(From(true, a), e)
  {
    hide StringLen, Minify;
    StringRunsOn(a, e, j);
    var t := From(true, a);
    assert t[..j + 1] == a[..j + 1];
    assert t[..j] == t[..j + 1][..j] == a[..j + 1][..j] == a[..j] && t[j] == t[..j + 1][j];
    assert BlankAt(t, e, j);
  }

  lemma BadString(s: bytes, rest: bytes, e: bytes, j: nat)
    requires EndsInBackslash(s) && Gap(rest, e, j)
    ensures Differs(Minify(Quoted(s) + rest), Quoted(s) + e)
  {
    hide From, Differs, Gap, Quoted, Minify;
    FromString(s, false, rest);
    MinifyIsFrom(Quoted(s) + rest);
    GapStays(rest, e, j);
    DiffersAfter(Quoted(s), From(true, rest), e);
  }

  /** A minifiable item in front of a difference. */
  lemma GoodItem(k: Libc, item: Item, column: nat, a: bytes, b: bytes, levels: int)
    requires Printable(item, levels) && Minifiable(item) && Differs(Minify(a), b)
    ensures Differs(Minify(Pretty(k, item, column) + a), Plain(k, item, column) + b)
  {
    hide Minify, Differs, Styled, Misread, After;
    MinifiableIsPlain(k, item, column);
    FromItem(k, item, column, false, a, levels);
    DiffersAfter(Plain(k, item, column), Minify(a), b);
  }

  /** An item with a string or key that ends in a backslash, before a blank that the unformatted text does not have. */
  lemma {:induction false} BadItem(k: Libc, item: Item, column: nat, rest: bytes, e: bytes, j: nat, levels: int)
    requires Printable(item, levels) && !Minifiable(item) && Gap(rest, e, j)
    ensures Differs(Minify(Pretty(k, item, column) + rest), Plain(k, item, column) + e)
    decreases item, 1
  {
    hide Minify, Gap, Differs, Quoted;
    match item
    case String(s) => BadString(s, rest, e, j);
    case Array(items) => BadArray(k, item, column, rest, e, j, levels);
    case Object(members) => BadObject(k, item, column, rest, e, levels);
  }

  lemma {:induction false} BadArray(k: Libc, item: Item, column: nat, rest: bytes, e: bytes, j: nat, levels: int)
    requires item.Array? && Printable(item, levels) && !Minifiable(item) && Gap(rest, e, j)
    ensures Differs(Minify(Pretty(k, item, column) + rest), Plain(k, item, column) + e)
    decreases item, 0
  {
    hide Minify, Gap, Differs, Styled, StyledItems, Keeps;
    var a, b := [']' as int] + rest, [']' as int] + e;
    GapAfter(']' as int, rest, e, j);
    BadItems(k, item.items, column + 1, a, b, j + 1, levels - 1);
    BracketDiffers(k, item, column, rest, e);
  }

  lemma BracketDiffers(k: Libc, item: Item, column: nat, rest: bytes, e: bytes)
    requires item.Array?
    requires Differs(Minify(StyledItems(k, Uniform, item.items, column + 1, true) + ([']' as int] + rest)),
                     StyledItems(k, Uniform, item.items, column + 1, false) + ([']' as int] + e))
    ensures Differs(Minify(Pretty(k, item, column) + rest), Plain(k, item, column) + e)
  {
    hide Minify, Differs, Styled, StyledItems;
    var a := StyledItems(k, Uniform, item.items, column + 1, true) + ([']' as int] + rest);
    var b := StyledItems(k, Uniform, item.items, column + 1, false) + ([']' as int] + e);
    ArraySplit(k, Uniform, item, column, true, rest);
    ArraySplit(k, Uniform, item, column, false, e);
    MinifyPlain(['[' as int], a);
    DiffersAfter(['[' as int], Minify(a), b);
  }

  /** After a comma or a colon, the formatted text has a blank where the unformatted one goes on with `e`. */
  lemma MarkGap(mark: byte, blank: byte, rest: bytes, e: bytes)
    requires mark != QUOTE && mark != BACKSLASH && IsBlank(blank) && (e != [] ==> !IsBlank(e[0]))
    ensures Gap([mark, blank] + rest, [mark] + e, 1)
  {
    assert ([mark, blank] + rest)[..1] == [mark] == ([mark] + e)[..1];
  }

  lemma SeparatorDiffers(more: bytes, less: bytes)
    requires Differs(Minify(more), less)
    ensures Differs(Minify(Separator(true) + more), Separator(false) + less)
  {
    hide Minify, Differs;
    FromSeparator(false, more);
    DiffersAfter(Separator(false), Minify(more), less);
  }

  lemma {:induction false} BadItems(k: Libc, items: seq<Item>, column: nat, rest: bytes, e: bytes, j: nat, levels: int)
    requires PrintableItems(items, levels) && !MinifiableItems(items) && Gap(rest, e, j)
    ensures Differs(Minify(StyledItems(k, Uniform, items, column, true) + rest),
      StyledItems(k, Uniform, items, column, false) + e)
    decreases items, 0
  {
    hide Minify, Gap, Differs, Styled, StyledItems, After, IsBlank;
    UniformAfter(items[0], true);
    UniformAfter(items[0], false);
    ItemsSplit(k, Uniform, items, column, true, rest);
    ItemsSplit(k, Uniform, items, column, false, e);
    if |items| == 1 {
      BadItem(k, items[0], column, rest, e, j, levels);
    } else {
      var more, less :=
        StyledItems(k, Uniform, items[1..], column, true) + rest,
        StyledItems(k, Uniform, items[1..], column, false) + e;
      if Minifiable(items[0]) {
        BadItems(k, items[1..], column, rest, e, j, levels);
        SeparatorDiffers(more, less);
        GoodItem(k, items[0], column, Separator(true) + more, Separator(false) + less, levels);
      } else {
        ItemsFront(k, items[1..], column, e, levels);
        SpaceIsBlank();
        MarkGap(',' as int, 32, more, less);
        BadItem(k, items[0], column, Separator(true) + more, Separator(false) + less, 1, levels);
      }
    }
  }

  lemma SpaceIsBlank()
    ensures IsBlank(32) && IsBlank(9) && IsBlank(10)
  {
  }

  lemma ItemFront(k: Libc, item: Item, column: nat, e: bytes, levels: int)
    requires Printable(item, levels)
    ensures var t := Plain(k, item, column) + e; t != [] && !IsBlank(t[0])
  {
    TextStarts(k, Uniform, item, column, false, levels);
  }

  lemma ItemsFront(k: Libc, items: seq<Item>, column: nat, e: bytes, levels: int)
    requires items != [] && PrintableItems(items, levels)
    ensures var t := StyledItems(k, Uniform, items, column, false) + e; t != [] && !IsBlank(t[0])
  {
    TextStarts(k, Uniform, items[0], column, false, levels);
  }

  lemma {:induction false} BadObject(k: Libc, item: Item, column: nat, rest: bytes, e: bytes, levels: int)
    requires item.Object? && Printable(item, levels) && !Minifiable(item)
    ensures Differs(Minify(Pretty(k, item, column) + rest), Plain(k, item, column) + e)
    decreases item, 0
  {
    hide Minify, Differs, Styled, StyledMembers, Brace, Indent;
    var members := item.members;
    var a, b := Indent(column, true) + (['}' as int] + rest), ['}' as int] + e;
    var pretty, plain :=
      StyledMembers(k, Uniform, members, column + 1, true) + a,
      StyledMembers(k, Uniform, members, column + 1, false) + b;
    UniformAfterMembers(members, true);
    UniformAfterMembers(members, false);
    ObjectSplit(k, Uniform, item, column, true, rest);
    ObjectSplit(k, Uniform, item, column, false, e);
    NoIndent(column, b);
    BadMembers(k, members, column + 1, a, b, levels - 1);
    FromBrace(false, pretty);
    DiffersAfter(Brace(false), Minify(pretty), plain);
  }

  lemma NoIndent(column: nat, b: bytes)
    ensures Indent(column, false) + b == b
  {
  }

  lemma {:induction false} BadMembers(k: Libc, members: seq<Member>, column: nat, rest: bytes, e: bytes, levels: int)
    requires PrintableMembers(members, levels) && !MinifiableMembers(members) && e != [] && !IsBlank(e[0])
    ensures Differs(Minify(StyledMembers(k, Uniform, members, column, true) + rest),
      StyledMembers(k, Uniform, members, column, false) + e)
    decreases members, 0
  {
    hide Minify, Differs, StyledMember, StyledMembers, AfterMember, IsBlank, MinifiableMember;
    var m, last := members[0], |members| == 1;
    var more, less :=
      StyledMembers(k, Uniform, members[1..], column, true) + rest,
      StyledMembers(k, Uniform, members[1..], column, false) + e;
    UniformAfterMember(m);
    MembersSplit(k, Uniform, members, column, true, rest);
    MembersSplit(k, Uniform, members, column, false, e);
    if MinifiableMember(m) {
      BadMembers(k, members[1..], column, rest, e, levels);
      GoodMember(k, m, last, column, more, less, levels);
    } else {
      MembersFront(k, members[1..], column, e);
      BadMember(k, m, last, column, more, less, levels);
    }
  }

  lemma UniformAfterMember(m: Member)
    ensures AfterMember(Uniform, m, true) && !AfterMember(Uniform, m, false)
  {
    UniformAfter(m.item, true);
    UniformAfter(m.item, false);
  }

  /** A minifiable member in front of a difference. */
  lemma GoodMember(k: Libc, m: Member, last: bool, column: nat, a: bytes, b: bytes, levels: int)
    requires Printable(m.item, levels) && MinifiableMember(m) && Differs(Minify(a), b)
    ensures Differs(Minify(StyledMember(k, Uniform, m, last, column, true) + a),
      StyledMember(k, Uniform, m, last, column, false) + b)
  {
    hide Minify, Differs, Styled;
    MinifiableIsPlain(k, m.item, column);
    UniformAfter(m.item, false);
    FromMember(k, m, last, column, false, a, levels);
    DiffersAfter(StyledMember(k, Uniform, m, last, column, false), Minify(a), b);
  }

  lemma MembersFront(k: Libc, members: seq<Member>, column: nat, e: bytes)
    requires e != [] && !IsBlank(e[0])
    ensures var t := StyledMembers(k, Uniform, members, column, false) + e; t != [] && !IsBlank(t[0])
  {
    hide Styled;
    if members == [] {
      assert StyledMembers(k, Uniform, members, column, false) + e == e;
    }
  }

  lemma {:induction false} BadMember(k: Libc, m: Member, last: bool, column: nat, rest: bytes, e: bytes, levels: int)
    requires Printable(m.item, levels) && !MinifiableMember(m) && e != [] && !IsBlank(e[0])
    ensures Differs(Minify(StyledMember(k, Uniform, m, last, column, true) + rest),
      StyledMember(k, Uniform, m, last, column, false) + e)
    decreases m, 2
  {
    hide Minify, Differs, Gap, Styled, StyledMember, Quoted, Indent, Colon, LineEnd, Printable, Minifiable, IsBlank,
      EndsInBackslash;
    var a, b := LineEnd(last, true) + rest, LineEnd(last, false) + e;
    var x, y := Pretty(k, m.item, column) + a, Plain(k, m.item, column) + b;
    UniformAfter(m.item, true);
    UniformAfter(m.item, false);
    MemberSplit(k, Uniform, m, last, column, true, rest);
    MemberSplit(k, Uniform, m, last, column, false, e);
    FromIndent(false, column, Quoted(m.key) + (Colon(true) + x));
    NoIndent(column, Quoted(m.key) + (Colon(false) + y));
    NoIndent(column, Minify(Quoted(m.key) + (Colon(true) + x)));
    if EndsInBackslash(m.key) {
      ItemFront(k, m.item, column, b, levels);
      BadKey(m.key, x, y);
    } else {
      LineEndGap(last, rest, e);
      BadItem(k, m.item, column, a, b, if last then 0 else 1, levels);
      BadValue(m.key, x, y);
    }
  }

  lemma BadKey(key: bytes, x: bytes, y: bytes)
    requires EndsInBackslash(key) && (y != [] ==> !IsBlank(y[0]))
    ensures Differs(Minify(Quoted(key) + (Colon(true) + x)), Quoted(key) + (Colon(false) + y))
  {
    hide Minify, Differs, Gap, Quoted, IsBlank;
    SpaceIsBlank();
    MarkGap(':' as int, 9, x, y);
    BadString(key, Colon(true) + x, Colon(false) + y, 1);
  }

  lemma BadValue(key: bytes, x: bytes, y: bytes)
    requires !EndsInBackslash(key) && Differs(Minify(x), y)
    ensures Differs(Minify(Quoted(key) + (Colon(true) + x)), Quoted(key) + (Colon(false) + y))
  {
    hide Minify, Differs, Quoted, Colon;
    FromColon(false, x);
    FromString(key, false, Colon(true) + x);
    DiffersAfter(Colon(false), Minify(x), y);
    DiffersAfter(Quoted(key), Colon(false) + Minify(x), Colon(false) + y);
  }

  lemma LineEndGap(last: bool, rest: bytes, e: bytes)
    requires e != [] ==> !IsBlank(e[0])
    ensures Gap(LineEnd(last, true) + rest, LineEnd(last, false) + e, if last then 0 else 1)
  {
    SpaceIsBlank();
    if last {
      assert LineEnd(last, false) + e == e;
    } else {
      MarkGap(',' as int, 10, rest, e);
    }
  }

  // An item that is not clean, before closing brackets only.

  predicate Brackets(rest: bytes) {
    forall i :: 0 <= i < |rest| ==> rest[i] == ']' as int
  }

  lemma {:induction false} UncleanItem(k: Libc, item: Item, column: nat, rest: bytes, levels: int)
    requires Printable(item, levels) && !Clean(item) && Brackets(rest)
    ensures Differs(Minify(Pretty(k, item, column) + rest), Plain(k, item, column) + rest)
    decreases item, 1
  {
    hide Minify, Differs, Styled, StyledItems;
    if item.Array? {
      UncleanItems(k, item.items, column + 1, [']' as int] + rest, levels - 1);
      BracketDiffers(k, item, column, rest, rest);
    } else {
      BadObject(k, item, column, rest, rest, levels);
    }
  }

  lemma {:induction false} UncleanItems(k: Libc, items: seq<Item>, column: nat, rest: bytes, levels: int)
    requires PrintableItems(items, levels) && !CleanItems(items) && Brackets(rest)
    ensures Differs(Minify(StyledItems(k, Uniform, items, column, true) + rest),
      StyledItems(k, Uniform, items, column, false) + rest)
    decreases items, 0
  {
    hide Minify, Gap, Differs, Styled, StyledItems, After, IsBlank;
    UniformAfter(items[0], true);
    UniformAfter(items[0], false);
    ItemsSplit(k, Uniform, items, column, true, rest);
    ItemsSplit(k, Uniform, items, column, false, rest);
    if |items| == 1 {
      UncleanItem(k, items[0], column, rest, levels);
    } else {
      var more, less :=
        StyledItems(k, Uniform, items[1..], column, true) + rest,
        StyledItems(k, Uniform, items[1..], column, false) + rest;
      if Minifiable(items[0]) {
        UncleanItems(k, items[1..], column, rest, levels);
        SeparatorDiffers(more, less);
        GoodItem(k, items[0], column, Separator(true) + more, Separator(false) + less, levels);
      } else {
        ItemsFront(k, items[1..], column, rest, levels);
        SpaceIsBlank();
        MarkGap(',' as int, 32, more, less);
        BadItem(k, items[0], column, Separator(true) + more, Separator(false) + less, 1, levels);
      }
    }
  }

  /** Minifying what cJSON_Print writes gives what cJSON_PrintUnformatted writes exactly for the clean items. */
  lemma MinifiedIsUnformatted(k: Libc, item: Item, levels: int)
    requires Printable(item, levels)
    ensures Minify(ItemText(k, item, true, 0)) == ItemText(k, item, false, 0) <==> Clean(item)
  {
    hide Styled, ItemText, Minify, Differs;
    PrintedIsUniform(k, item, 0, true);
    PrintedIsUniform(k, item, 0, false);
    assert Pretty(k, item, 0) + [] == Pretty(k, item, 0) && Plain(k, item, 0) + [] == Plain(k, item, 0);
    if Clean(item) {
      CleanIsPlain(k, item, 0);
      FromItem(k, item, 0, false, [], levels);
      NothingLeft(After(Misread, item, false));
    } else {
      UncleanItem(k, item, 0, [], levels);
      DifferentTexts(Minify(Pretty(k, item, 0)), Plain(k, item, 0));
    }
  }

  lemma NothingLeft(inside: bool)
    ensures From(inside, []) == []
  {
  }

  lemma DifferentTexts(a: bytes, e: bytes)
    requires Differs(a, e)
    ensures a != e
  {
    var i: nat :| BlankAt(a, e, i);
  }

  /** With a line end behind the text, exactly for the items without a string or key that ends in a backslash. */
  lemma MinifiesWithLineEnd(k: Libc, item: Item, levels: int)
    requires Printable(item, levels)
    ensures Minify(ItemText(k, item, true, 0) + [NEWLINE]) == ItemText(k, item, false, 0) <==> Minifiable(item)
  {
    hide Styled, ItemText, Minify, Differs;
    PrintedIsUniform(k, item, 0, true);
    PrintedIsUniform(k, item, 0, false);
    assert Plain(k, item, 0) + [] == Plain(k, item, 0);
    if Minifiable(item) {
      MinifiableIsPlain(k, item, 0);
      FromItem(k, item, 0, false, [NEWLINE], levels);
      OnlyBlank();
    } else {
      assert Gap([NEWLINE], [], 0);
      BadItem(k, item, 0, [NEWLINE], [], 0, levels);
      DifferentTexts(Minify(Pretty(k, item, 0) + [NEWLINE]), Plain(k, item, 0));
    }
  }

  lemma OnlyBlank()
    ensures Minify([NEWLINE]) == []
  {
  }
}
