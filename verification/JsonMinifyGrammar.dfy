/** What cJSON_Minify is for: texts with blanks and comments between their tokens, which it leaves the tokens of. */
module JsonMinifyGrammar {
  import opened JsonText
  import opened JsonLiteral
  import opened JsonGrammar
  import opened JsonMinify
  import JsonDocument

  // ---- Gaps with comments ----

  /** No star and slash next to each other. */
  predicate NoEnd(t: bytes) {
    forall i :: 0 <= i < |t| - 1 ==> !(t[i] == '*' as int && t[i + 1] == '/' as int)
  }

  predicate LineComment(t: bytes) {
    |t| >= 3 && t[..2] == Ascii("//") && t[|t| - 1] == 10 && 10 !in t[..|t| - 1]
  }

  predicate BlockComment(t: bytes) {
    |t| >= 4 && t[..2] == Ascii("/*") && t[|t| - 2..] == Ascii("*/") && NoEnd(t[2..|t| - 1])
  }

  predicate IsBlankOrComment(t: bytes) {
    (|t| == 1 && t[0] as char in " \t\r\n") || LineComment(t) || BlockComment(t)
  }

  ghost predicate IsGap(t: bytes) {
    exists parts :: Concat(parts) == t && forall i :: 0 <= i < |parts| ==> IsBlankOrComment(parts[i])
  }

  /** At the end of the text a comment may lack its own end. */
  ghost predicate IsTail(t: bytes) {
    IsGap(t) || exists n :: 0 <= n <= |t| && IsGap(t[..n]) && IsOpen(t[n..])
  }

  predicate IsOpen(t: bytes) {
    |t| >= 2 && ((t[..2] == Ascii("//") && 10 !in t) || (t[..2] == Ascii("/*") && NoEnd(t[2..])))
  }

  lemma {:induction false} LineGoes(s: bytes, rest: bytes)
    requires 10 !in s
    ensures AfterLine(s + ([10] + rest)) == rest && AfterLine(s) == []
  {
    if s == [] {
      assert s + ([10] + rest) == [10] + rest && ([10] + rest)[1..] == rest;
    } else {
      assert (s + ([10] + rest))[1..] == s[1..] + ([10] + rest);
      LineGoes(s[1..], rest);
    }
  }

  lemma {:induction false} CommentGoes(s: bytes, rest: bytes)
    requires NoEnd(s + [STAR])
    ensures AfterComment(s + ([STAR, SLASH] + rest)) == rest
  {
    var t := s + ([STAR, SLASH] + rest);
    if s == [] {
      assert t[2..] == rest;
    } else {
      assert t[1..] == s[1..] + ([STAR, SLASH] + rest);
      assert (s + [STAR])[0] == s[0] && (s + [STAR])[1] == t[1] && (s + [STAR])[1..] == s[1..] + [STAR];
      CommentGoes(s[1..], rest);
    }
  }

  lemma {:induction false} OpenGoes(s: bytes)
    requires NoEnd(s)
    ensures AfterComment(s) == []
  {
    if s != [] {
      OpenGoes(s[1..]);
    }
  }

  lemma LineCommentGoes(t: bytes, rest: bytes)
    requires LineComment(t)
    ensures Minify(t + rest) == Minify(rest)
  {
    hide AfterLine, AfterComment;
    var u, body := t + rest, t[2..|t| - 1];
    assert t[..2][0] == u[0] && t[..2][1] == u[1];
    assert u[2..] == body + ([10] + rest);
    LineGoes(body, rest);
  }

  /** A comment is its body between its two marks. */
  lemma BlockParts(t: bytes)
    requires BlockComment(t)
    ensures var body := t[2..|t| - 2];
      t == [SLASH, STAR] + (body + [STAR, SLASH]) && t[2..|t| - 1] == body + [STAR]
  {
    hide NoEnd;
    var n := |t|;
    assert t == t[..2] + (t[2..n - 2] + t[n - 2..]);
    assert t[n - 2] == t[n - 2..][0];
  }

  lemma OpensComment(t: bytes)
    ensures Minify([SLASH, STAR] + t) == Minify(AfterComment(t))
  {
    hide AfterLine, AfterComment;
    assert ([SLASH, STAR] + t)[2..] == t;
  }

  lemma BlockCommentGoes(t: bytes, rest: bytes)
    requires BlockComment(t)
    ensures Minify(t + rest) == Minify(rest)
  {
    hide Minify, AfterComment, NoEnd;
    var body, end := t[2..|t| - 2], [STAR, SLASH] + rest;
    BlockParts(t);
    NoEndInside(t);
    assert t + rest == [SLASH, STAR] + (body + end);
    OpensComment(body + end);
    CommentGoes(body, rest);
  }

  lemma NoEndInside(t: bytes)
    requires BlockComment(t)
    ensures NoEnd(t[2..|t| - 1])
  {
  }

  lemma PieceGoes(t: bytes, rest: bytes)
    requires IsBlankOrComment(t)
    ensures Minify(t + rest) == Minify(rest)
  {
    hide LineComment, BlockComment, AfterLine, AfterComment;
    if LineComment(t) {
      LineCommentGoes(t, rest);
    } else if BlockComment(t) {
      BlockCommentGoes(t, rest);
    } else {
      assert (t + rest)[1..] == rest;
    }
  }

  lemma {:induction false} PiecesGo(parts: seq<bytes>, rest: bytes)
    requires forall i :: 0 <= i < |parts| ==> IsBlankOrComment(parts[i])
    ensures Minify(Concat(parts) + rest) == Minify(rest)
  {
    hide Minify, IsBlankOrComment;
    if parts == [] {
      assert Concat(parts) + rest == rest;
    } else {
      PiecesGo(parts[1..], rest);
      PieceGoes(parts[0], Concat(parts[1..]) + rest);
      assert Concat(parts) + rest == parts[0] + (Concat(parts[1..]) + rest);
    }
  }

  lemma GapGoes(t: bytes, rest: bytes)
    requires IsGap(t)
    ensures Minify(t + rest) == Minify(rest)
  {
    hide Minify, IsBlankOrComment;
    var parts :| Concat(parts) == t && forall i :: 0 <= i < |parts| ==> IsBlankOrComment(parts[i]);
    PiecesGo(parts, rest);
  }

  lemma TailGoes(t: bytes)
    requires IsTail(t)
    ensures Minify(t) == []
  {
    hide Minify, IsGap, IsOpen;
    NothingToMinify();
    if IsGap(t) {
      GapGoes(t, []);
      assert t + [] == t;
    } else {
      var n :| 0 <= n <= |t| && IsGap(t[..n]) && IsOpen(t[n..]);
      GapGoes(t[..n], t[n..]);
      OpenStays(t[n..]);
      assert t == t[..n] + t[n..];
    }
  }

  lemma OpenStays(t: bytes)
    requires IsOpen(t)
    ensures Minify(t) == []
  {
    hide AfterLine, AfterComment;
    assert t[0] == t[..2][0] && t[1] == t[..2][1];
    if t[1] == SLASH {
      LineGoes(t[2..], []);
    } else {
      OpenGoes(t[2..]);
    }
  }

  // ---- Strings ----

  /** Every quote but the last byte stands right behind a backslash, and that one does not. */
  predicate EndsFirst(t: bytes, n: nat) {
    && 0 < n <= |t| && t[n - 1] == '\"' as int && (n > 1 ==> t[n - 2] != '\\' as int)
    && forall i :: 0 <= i < n - 1 && t[i] == '\"' as int ==> i > 0 && t[i - 1] == '\\' as int
  }

  /** A first byte, or a backslash and a quote, that does not end a string. */
  lemma EndsLater(t: bytes, k: nat, n: nat)
    requires t != [] && t[0] != QUOTE && 0 < k < n
    requires k == if t[0] == BACKSLASH && |t| > 1 && t[1] == QUOTE then 2 else 1
    ensures EndsFirst(t, n) <==> k <= |t| && EndsFirst(t[k..], n - k)
  {
    if k <= |t| {
      var u := t[k..];
      assert forall i :: k <= i < |t| ==> t[i] == u[i - k];
      if EndsFirst(t, n) {
        assert forall i :: 0 <= i < |u| ==> u[i] == t[k + i];
      }
    }
  }

  /** The minifier ends a string at the first quote that does not stand right behind a backslash. */
  lemma {:induction false} StringEnds(t: bytes, n: nat)
    ensures StringLen(t) == Some(n) <==> EndsFirst(t, n)
    decreases |t|
  {
    if t != [] && t[0] != QUOTE {
      var k := if t[0] == BACKSLASH && |t| > 1 && t[1] == QUOTE then 2 else 1;
      if k < n {
        hide EndsFirst;
        EndsLater(t, k, n);
        StringEnds(t[k..], n - k);
      }
    }
  }

  /** The last byte of a string, in the way it is spelled, is no backslash. */
  predicate InStep(t: bytes) {
    |t| >= 2 && t[|t| - 2] != '\\' as int
  }

  predicate QuotesEscaped(t: bytes) {
    forall i :: 0 <= i < |t| && t[i] == QUOTE ==> i > 0 && t[i - 1] == BACKSLASH
  }

  lemma QuotesJoin(u: bytes, rest: bytes)
    requires QuotesEscaped(u) && QuotesEscaped(rest)
    ensures QuotesEscaped(u + rest)
  {
    var t := u + rest;
    forall i | 0 <= i < |t| && t[i] == QUOTE
      ensures i > 0 && t[i - 1] == BACKSLASH
    {
      assert if i < |u| then t[i] == u[i] else t[i] == rest[i - |u|];
    }
  }

  lemma {:induction false} QuotesAreEscaped(units: seq<bytes>)
    requires AreUnits(units)
    ensures QuotesEscaped(Concat(units))
  {
    if units != [] {
      assert IsUnit(units[0]);
      QuotesAreEscaped(units[1..]);
      QuotesJoin(units[0], Concat(units[1..]));
    }
  }

  lemma LiteralEnds(t: bytes, s: bytes, rest: bytes)
    requires IsLiteral(t, s) && InStep(t)
    ensures var n := |t| - 1; n > 0 && StringLen((t + rest)[1..]) == Some(n) && t[0] == QUOTE
  {
    hide StringLen, Means, Concat;
    var n := |t| - 1;
    var u, inside := (t + rest)[1..], t[1..n];
    var units :| AreUnits(units) && Concat(units) == inside;
    QuotesAreEscaped(units);
    assert u[n - 1] == t[n];
    forall i | 0 <= i < n - 1
      ensures u[i] == inside[i]
    {
    }
    StringEnds(u, n);
  }

  lemma LiteralStays(t: bytes, s: bytes, rest: bytes)
    requires IsLiteral(t, s) && InStep(t)
    ensures Minify(t + rest) == t + Minify(rest)
  {
    hide StringLen, IsLiteral, InStep;
    LiteralEnds(t, s, rest);
    var u := t + rest;
    assert u[..|t|] == t && u[|t|..] == rest;
  }

  // ---- Whole texts ----

  predicate Plain(b: byte) {
    !IsBlank(b) && b != SLASH && b != QUOTE
  }

  lemma {:induction false} RunStays(t: bytes, rest: bytes)
    requires forall i :: 0 <= i < |t| ==> Plain(t[i])
    ensures Minify(t + rest) == t + Minify(rest)
  {
    if t == [] {
      assert t + rest == rest;
    } else {
      assert (t + rest)[1..] == t[1..] + rest;
      RunStays(t[1..], rest);
      assert [t[0]] + (t[1..] + Minify(rest)) == t + Minify(rest);
    }
  }

  lemma ByteStays(b: byte, rest: bytes)
    requires Plain(b)
    ensures Minify([b] + rest) == [b] + Minify(rest)
  {
    RunStays([b], rest);
  }

  /** The same tokens with no gaps. */
  function Compact(x: Layout): Layout
    decreases x, 1
  {
    match x
    case Brackets(gap, slots) => Brackets([], CompactSlots(slots))
    case Braces(gap, fields) => Braces([], CompactFields(fields))
    case _ => x
  }

  function CompactSlot(s: Slot): Slot
    decreases s, 2
  {
    Slot([], Compact(s.value), [])
  }

  function CompactSlots(slots: seq<Slot>): (r: seq<Slot>)
    ensures |r| == |slots|
    decreases slots, 0
  {
    if slots == [] then [] else [CompactSlot(slots[0])] + CompactSlots(slots[1..])
  }

  function CompactField(f: Field): Field
    decreases f, 3
  {
    Field([], f.spelling, f.key, [], CompactSlot(f.slot))
  }

  function CompactFields(fields: seq<Field>): (r: seq<Field>)
    ensures |r| == |fields|
    decreases fields, 0
  {
    if fields == [] then [] else [CompactField(fields[0])] + CompactFields(fields[1..])
  }

  lemma {:induction false} ValueStays(k: Libc, x: Layout, levels: int, rest: bytes)
    requires Proper(k, x, levels) && All(x, IsGap, InStep)
    ensures Minify(TextOf(x) + rest) == TextOf(Compact(x)) + Minify(rest)
    decreases x, 1
  {
    hide Minify, IsGap, IsLiteral, InStep;
    match x {
    case Word(item) =>
      RunStays(TextOf(x), rest);
    case Numeral(digits, unread) =>
      forall i | 0 <= i < |digits|
        ensures Plain(digits[i])
      {
        assert digits[i] == (digits + unread)[i];
        assert InNumber(digits[i]);
      }
      RunStays(digits, rest);
    case Literal(spelling, text) =>
      LiteralStays(spelling, text, rest);
    case Brackets(gap, slots) =>
      BracketsStay(k, x, levels, rest);
    case Braces(gap, fields) =>
      BracesStay(k, x, levels, rest);
    }
  }

  lemma Around(open: byte, inside: bytes, close: byte, rest: bytes, left: bytes)
    requires Plain(open) && Plain(close)
    requires Minify(inside + ([close] + rest)) == left + Minify([close] + rest)
    ensures Minify([open] + inside + [close] + rest) == [open] + left + [close] + Minify(rest)
  {
    hide Minify, Plain;
    ByteStays(open, inside + ([close] + rest));
    ByteStays(close, rest);
    assert [open] + inside + [close] + rest == [open] + (inside + ([close] + rest));
    assert [open] + (left + ([close] + Minify(rest))) == [open] + left + [close] + Minify(rest);
  }

  lemma {:induction false} BracketsStay(k: Libc, x: Layout, levels: int, rest: bytes)
    requires x.Brackets? && Proper(k, x, levels) && All(x, IsGap, InStep)
    ensures Minify(TextOf(x) + rest) == TextOf(Compact(x)) + Minify(rest)
    decreases x, 0
  {
    hide Minify, IsGap, IsLiteral, InStep, SlotsText, CompactSlots;
    var slots := x.slots;
    var behind := [']' as int] + rest;
    assert Ascii("[") == ['[' as int] && Ascii("]") == [']' as int];
    if slots == [] {
      GapGoes(x.gap, behind);
      assert [] + Minify(behind) == Minify(behind);
      Around('[' as int, x.gap, ']' as int, rest, []);
    } else {
      SlotsStay(k, slots, levels - 1, behind);
      Around('[' as int, SlotsText(slots), ']' as int, rest, SlotsText(CompactSlots(slots)));
    }
  }

  lemma {:induction false} SlotStays(k: Libc, s: Slot, levels: int, rest: bytes)
    requires ProperSlot(k, s, levels) && AllSlot(s, IsGap, InStep)
    ensures Minify(SlotText(s) + rest) == SlotText(CompactSlot(s)) + Minify(rest)
    decreases s, 2
  {
    hide Minify, IsGap, InStep, TextOf, Compact, Proper, All;
    var t := TextOf(s.value);
    GapGoes(s.before, t + (s.behind + rest));
    ValueStays(k, s.value, levels, s.behind + rest);
    GapGoes(s.behind, rest);
    assert SlotText(s) + rest == s.before + (t + (s.behind + rest));
    assert SlotText(CompactSlot(s)) == TextOf(Compact(s.value));
  }

  /** What stays of two texts one after the other, with a mark between them or none. */
  lemma BothStay(first: bytes, mark: bytes, second: bytes, rest: bytes, a: bytes, b: bytes)
    requires forall i :: 0 <= i < |mark| ==> Plain(mark[i])
    requires var more := second + rest;
      Minify(first + (mark + more)) == a + Minify(mark + more) && Minify(more) == b + Minify(rest)
    ensures Minify(first + mark + second + rest) == a + mark + b + Minify(rest)
  {
    hide Minify, Plain;
    var more := second + rest;
    RunStays(mark, more);
    assert first + mark + second + rest == first + (mark + more);
    assert a + (mark + (b + Minify(rest))) == a + mark + b + Minify(rest);
  }

  lemma {:induction false} SlotsStay(k: Libc, slots: seq<Slot>, levels: int, rest: bytes)
    requires forall i :: 0 <= i < |slots| ==> ProperSlot(k, slots[i], levels) && AllSlot(slots[i], IsGap, InStep)
    ensures Minify(SlotsText(slots) + rest) == SlotsText(CompactSlots(slots)) + Minify(rest)
    decreases slots, 0
  {
    hide Minify, SlotText, CompactSlot, ProperSlot, AllSlot;
    if slots == [] {
      assert SlotsText(slots) + rest == rest;
    } else {
      hide SlotsText, CompactSlots;
      var comma: bytes := if |slots| > 1 then Ascii(",") else [];
      assert Ascii(",") == [',' as int];
      SlotStays(k, slots[0], levels, comma + (SlotsText(slots[1..]) + rest));
      SlotsStay(k, slots[1..], levels, rest);
      CompactFirst(slots);
      BothStay(SlotText(slots[0]), comma, SlotsText(slots[1..]), rest, SlotText(CompactSlot(slots[0])),
               SlotsText(CompactSlots(slots[1..])));
    }
  }

  lemma CompactFirst(slots: seq<Slot>)
    requires slots != []
    ensures SlotsText(CompactSlots(slots)) == SlotText(CompactSlot(slots[0]))
      + (if |slots| > 1 then Ascii(",") else []) + SlotsText(CompactSlots(slots[1..]))
    ensures SlotsText(slots) == SlotText(slots[0]) + (if |slots| > 1 then Ascii(",") else []) + SlotsText(slots[1..])
  {
    hide SlotText, CompactSlot;
    assert CompactSlots(slots)[1..] == CompactSlots(slots[1..]);
  }

  lemma {:induction false} BracesStay(k: Libc, x: Layout, levels: int, rest: bytes)
    requires x.Braces? && Proper(k, x, levels) && All(x, IsGap, InStep)
    ensures Minify(TextOf(x) + rest) == TextOf(Compact(x)) + Minify(rest)
    decreases x, 0
  {
    hide Minify, IsGap, IsLiteral, InStep, FieldsText, CompactFields;
    var fields := x.fields;
    var behind := ['}' as int] + rest;
    assert Ascii("{") == ['{' as int] && Ascii("}") == ['}' as int];
    if fields == [] {
      GapGoes(x.gap, behind);
      assert [] + Minify(behind) == Minify(behind);
      Around('{' as int, x.gap, '}' as int, rest, []);
    } else {
      FieldsStay(k, fields, levels - 1, behind);
      Around('{' as int, FieldsText(fields), '}' as int, rest, FieldsText(CompactFields(fields)));
    }
  }

  lemma {:induction false} FieldStays(k: Libc, f: Field, levels: int, rest: bytes)
    requires ProperField(k, f, levels) && AllField(f, IsGap, InStep)
    ensures Minify(FieldText(f) + rest) == FieldText(CompactField(f)) + Minify(rest)
    decreases f, 3
  {
    hide Minify, IsGap, InStep, IsLiteral, SlotText, CompactSlot, ProperSlot, AllSlot;
    var colon: bytes := Ascii(":");
    assert colon == [':' as int];
    var more := SlotText(f.slot) + rest;
    GapGoes(f.before, f.spelling + (f.behind + (colon + more)));
    LiteralStays(f.spelling, f.key, f.behind + (colon + more));
    GapGoes(f.behind, colon + more);
    ByteStays(':' as int, more);
    SlotStays(k, f.slot, levels, rest);
    assert FieldText(f) + rest == f.before + (f.spelling + (f.behind + (colon + more)));
    assert FieldText(CompactField(f)) == f.spelling + colon + SlotText(CompactSlot(f.slot));
  }

  lemma {:induction false} FieldsStay(k: Libc, fields: seq<Field>, levels: int, rest: bytes)
    requires forall i :: 0 <= i < |fields| ==> ProperField(k, fields[i], levels) && AllField(fields[i], IsGap, InStep)
    ensures Minify(FieldsText(fields) + rest) == FieldsText(CompactFields(fields)) + Minify(rest)
    decreases fields, 0
  {
    hide Minify, FieldText, CompactField, ProperField, AllField;
    if fields == [] {
      assert FieldsText(fields) + rest == rest;
    } else {
      hide FieldsText, CompactFields;
      var comma: bytes := if |fields| > 1 then Ascii(",") else [];
      assert Ascii(",") == [',' as int];
      FieldStays(k, fields[0], levels, comma + (FieldsText(fields[1..]) + rest));
      FieldsStay(k, fields[1..], levels, rest);
      CompactFirstField(fields);
      BothStay(FieldText(fields[0]), comma, FieldsText(fields[1..]), rest, FieldText(CompactField(fields[0])),
               FieldsText(CompactFields(fields[1..])));
    }
  }

  lemma CompactFirstField(fields: seq<Field>)
    requires fields != []
    ensures FieldsText(CompactFields(fields)) == FieldText(CompactField(fields[0]))
      + (if |fields| > 1 then Ascii(",") else []) + FieldsText(CompactFields(fields[1..]))
    ensures FieldsText(fields)
      == FieldText(fields[0]) + (if |fields| > 1 then Ascii(",") else []) + FieldsText(fields[1..])
  {
    hide FieldText, CompactField;
    assert CompactFields(fields)[1..] == CompactFields(fields[1..]);
  }

  // ---- The minified text ----

  lemma {:induction false} CompactMeans(k: Libc, x: Layout, levels: int)
    requires Proper(k, x, levels)
    ensures Proper(k, Compact(x), levels) && MeaningOf(k, Compact(x)) == MeaningOf(k, x)
    ensures All(Compact(x), Blank, Anyhow) && Compact(x).Numeral? == x.Numeral? && (x.Numeral? ==> Compact(x) == x)
    decreases x, 1
  {
    hide IsLiteral;
    match x {
    case Brackets(gap, slots) =>
      CompactSlotsMean(k, slots, levels - 1);
    case Braces(gap, fields) =>
      CompactFieldsMean(k, fields, levels - 1);
    case _ =>
    }
  }

  lemma {:induction false} CompactSlotMeans(k: Libc, s: Slot, levels: int)
    requires ProperSlot(k, s, levels)
    ensures var t := CompactSlot(s);
      ProperSlot(k, t, levels) && AllSlot(t, Blank, Anyhow) && MeaningOf(k, t.value) == MeaningOf(k, s.value)
    decreases s, 2
  {
    hide Proper, All, MeaningOf;
    CompactMeans(k, s.value, levels);
  }

  lemma {:induction false} CompactSlotsMean(k: Libc, slots: seq<Slot>, levels: int)
    requires forall i :: 0 <= i < |slots| ==> ProperSlot(k, slots[i], levels)
    ensures var r := CompactSlots(slots);
      ItemsOf(k, r) == ItemsOf(k, slots)
        && forall i :: 0 <= i < |r| ==> ProperSlot(k, r[i], levels) && AllSlot(r[i], Blank, Anyhow)
    decreases slots, 0
  {
    hide ProperSlot, AllSlot, MeaningOf, CompactSlot;
    if slots != [] {
      CompactSlotMeans(k, slots[0], levels);
      CompactSlotsMean(k, slots[1..], levels);
      var r := CompactSlots(slots);
      assert r[1..] == CompactSlots(slots[1..]);
      assert forall i :: 0 < i < |r| ==> r[i] == r[1..][i - 1];
    }
  }

  lemma {:induction false} CompactFieldMeans(k: Libc, f: Field, levels: int)
    requires ProperField(k, f, levels)
    ensures var g := CompactField(f);
      && ProperField(k, g, levels) && AllField(g, Blank, Anyhow) && g.key == f.key
      && MeaningOf(k, g.slot.value) == MeaningOf(k, f.slot.value)
    decreases f, 3
  {
    hide ProperSlot, AllSlot, MeaningOf, CompactSlot, IsLiteral;
    CompactSlotMeans(k, f.slot, levels);
  }

  lemma {:induction false} CompactFieldsMean(k: Libc, fields: seq<Field>, levels: int)
    requires forall i :: 0 <= i < |fields| ==> ProperField(k, fields[i], levels)
    ensures var r := CompactFields(fields);
      MembersOf(k, r) == MembersOf(k, fields)
        && forall i :: 0 <= i < |r| ==> ProperField(k, r[i], levels) && AllField(r[i], Blank, Anyhow)
    decreases fields, 0
  {
    hide ProperField, AllField, MeaningOf, CompactField;
    if fields != [] {
      CompactFieldMeans(k, fields[0], levels);
      CompactFieldsMean(k, fields[1..], levels);
      var r := CompactFields(fields);
      assert r[1..] == CompactFields(fields[1..]);
      assert forall i :: 0 < i < |r| ==> r[i] == r[1..][i - 1];
    }
  }

  /**
   * What cJSON_Minify makes of any text of the grammar with blanks and comments between its tokens, before and behind
   * it: the tokens alone, if no string ends in a backslash. What is left parses to what the text means.
   */
  lemma MinifyLeavesTheTokens(k: Libc, before: bytes, x: Layout, behind: bytes, requireNul: bool)
    requires IsGap(before) && IsTail(behind) && Proper(k, x, 1000) && All(x, IsGap, InStep)
    requires x.Numeral? ==> x.unread == []
    ensures var left := TextOf(Compact(x));
      && Minify(before + TextOf(x) + behind) == left
      && JsonDocument.ParseDocument(k, left + [0], requireNul) == Ok(MeaningOf(k, x), |left|)
  {
    hide Minify, IsGap, IsTail, TextOf, Proper, All, MeaningOf, Compact;
    var t, left := TextOf(x), TextOf(Compact(x));
    GapGoes(before, t + behind);
    ValueStays(k, x, 1000, behind);
    TailGoes(behind);
    assert before + t + behind == before + (t + behind) && left + [] == left;
    CompactMeans(k, x, 1000);
    TokensParse(k, Compact(x), requireNul);
  }

  lemma NulEnds(c: bytes, e: nat, x: Layout)
    requires e < |c| && c[e] == 0 && (x.Numeral? ==> x.unread == [])
    ensures Ends(c, e, x)
  {
  }

  lemma TokensParse(k: Libc, x: Layout, requireNul: bool)
    requires Proper(k, x, 1000) && All(x, Blank, Anyhow) && (x.Numeral? ==> x.unread == [])
    ensures var t := TextOf(x); JsonDocument.ParseDocument(k, t + [0], requireNul) == Ok(MeaningOf(k, x), |t|)
  {
    hide TextOf, Proper, All, MeaningOf, ParseValue, At, SkipWhitespace, SkipBlanks, Ends, JsonDocument.AfterBom;
    var t := TextOf(x);
    var c := t + [0];
    Starts(k, x, 1000);
    assert JsonDocument.Mark(false) + [] + t + [] + [0] == c;
    JsonDocument.Layout(false, [], t, [], c);
    NulEnds(c, |t|, x);
    ValueReads(k, c, 0, x, 0);
    JsonDocument.SkipsAll(c, |t|);
  }
}
