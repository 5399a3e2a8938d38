/**
 * The texts that cJSON.c parses, as a grammar of its own. The parser takes exactly the texts of the grammar, with any
 * blanks between the tokens, and reads each as it means.
 */
module JsonGrammar {
  import opened JsonText
  import opened JsonLiteral
  import opened JsonRoundTrip

  /** A text with everything in it: each gap between two tokens, the digits of numbers and how strings are spelled. */
  datatype Layout =
    | Word(item: Item)
    | Numeral(digits: bytes, unread: bytes)
    | Literal(spelling: bytes, text: bytes)
    | Brackets(gap: bytes, slots: seq<Slot>)
    | Braces(gap: bytes, fields: seq<Field>)

  /** A value and the gaps around it. */
  datatype Slot = Slot(before: bytes, value: Layout, behind: bytes)

  /** A member: a key between two gaps, and behind the colon a value between two gaps. */
  datatype Field = Field(before: bytes, spelling: bytes, key: bytes, behind: bytes, slot: Slot)

  function TextOf(x: Layout): bytes
    decreases x, 1
  {
    match x
    case Word(item) => if item.Null? then Ascii("null") else if item.False? then Ascii("false") else Ascii("true")
    case Numeral(digits, unread) => digits
    case Literal(spelling, text) => spelling
    case Brackets(gap, slots) => Ascii("[") + (if slots == [] then gap else SlotsText(slots)) + Ascii("]")
    case Braces(gap, fields) => Ascii("{") + (if fields == [] then gap else FieldsText(fields)) + Ascii("}")
  }

  function SlotText(s: Slot): bytes
    decreases s, 2
  {
    s.before + TextOf(s.value) + s.behind
  }

  function SlotsText(slots: seq<Slot>): bytes
    decreases slots, 0
  {
    if slots == [] then []
    else SlotText(slots[0]) + (if |slots| > 1 then Ascii(",") else []) + SlotsText(slots[1..])
  }

  function FieldText(f: Field): bytes
    decreases f, 3
  {
    f.before + f.spelling + f.behind + Ascii(":") + SlotText(f.slot)
  }

  function FieldsText(fields: seq<Field>): bytes
    decreases fields, 0
  {
    if fields == [] then []
    else FieldText(fields[0]) + (if |fields| > 1 then Ascii(",") else []) + FieldsText(fields[1..])
  }

  function MeaningOf(k: Libc, x: Layout): Item
    decreases x, 1
  {
    match x
    case Word(item) => item
    case Numeral(digits, unread) => Number(k.Strtod(digits + unread).0)
    case Literal(spelling, text) => String(text)
    case Brackets(gap, slots) => Array(ItemsOf(k, slots))
    case Braces(gap, fields) => Object(MembersOf(k, fields))
  }

  function ItemsOf(k: Libc, slots: seq<Slot>): seq<Item>
    decreases slots, 0
  {
    if slots == [] then [] else [MeaningOf(k, slots[0].value)] + ItemsOf(k, slots[1..])
  }

  function MembersOf(k: Libc, fields: seq<Field>): seq<Member>
    decreases fields, 0
  {
    if fields == [] then []
    else [Member(fields[0].key, MeaningOf(k, fields[0].slot.value))] + MembersOf(k, fields[1..])
  }

  /** The bytes a number may have. */
  predicate InNumber(b: byte) {
    b as char in "0123456789+-eE."
  }

  lemma NumberBytesAre(b: byte)
    ensures IsNumberByte(b) <==> InNumber(b)
  {
  }

  /**
   * Numbers are what strtod makes of them; it may leave some bytes unread, but only where no other token has to follow.
   * Arrays and objects nest at most `levels` deep.
   */
  ghost predicate Proper(k: Libc, x: Layout, levels: int)
    decreases x, 1
  {
    match x
    case Word(item) => item in {Null, False, True}
    case Numeral(digits, unread) =>
      && digits != [] && (digits[0] == '-' as int || '0' as int <= digits[0] <= '9' as int)
      && (forall i :: 0 <= i < |digits + unread| ==> InNumber((digits + unread)[i]))
      && k.Strtod(digits + unread).1 == |digits|
    case Literal(spelling, text) => IsLiteral(spelling, text)
    case Brackets(gap, slots) => levels > 0 && (forall i :: 0 <= i < |slots| ==> ProperSlot(k, slots[i], levels - 1))
    case Braces(gap, fields) => levels > 0 && (forall i :: 0 <= i < |fields| ==> ProperField(k, fields[i], levels - 1))
  }

  ghost predicate ProperSlot(k: Libc, s: Slot, levels: int)
    decreases s, 2
  {
    Proper(k, s.value, levels) && (s.value.Numeral? ==> s.value.unread == [])
  }

  ghost predicate ProperField(k: Libc, f: Field, levels: int)
    decreases f, 3
  {
    IsLiteral(f.spelling, f.key) && ProperSlot(k, f.slot, levels)
  }

  /** What holds of all gaps and of the spelling of all strings. */
  ghost predicate All(x: Layout, gaps: bytes -> bool, strings: bytes -> bool)
    decreases x, 1
  {
    match x
    case Word(_) => true
    case Numeral(_, _) => true
    case Literal(spelling, text) => strings(spelling)
    case Brackets(gap, slots) => gaps(gap) && forall i :: 0 <= i < |slots| ==> AllSlot(slots[i], gaps, strings)
    case Braces(gap, fields) => gaps(gap) && forall i :: 0 <= i < |fields| ==> AllField(fields[i], gaps, strings)
  }

  ghost predicate AllSlot(s: Slot, gaps: bytes -> bool, strings: bytes -> bool)
    decreases s, 2
  {
    gaps(s.before) && All(s.value, gaps, strings) && gaps(s.behind)
  }

  ghost predicate AllField(f: Field, gaps: bytes -> bool, strings: bytes -> bool)
    decreases f, 3
  {
    gaps(f.before) && strings(f.spelling) && gaps(f.behind) && AllSlot(f.slot, gaps, strings)
  }

  predicate Blank(t: bytes) {
    forall i :: 0 <= i < |t| ==> t[i] <= 32
  }

  predicate Anyhow(t: bytes) {
    true
  }

  /** A whole text of the grammar stands at `o`; a number there ends with the bytes that strtod leaves unread. */
  ghost predicate Stands(k: Libc, c: bytes, o: nat, x: Layout, depth: nat) {
    && Proper(k, x, 1000 - depth) && All(x, Blank, Anyhow) && At(c, o, TextOf(x)) && Ends(c, o + |TextOf(x)|, x)
  }

  predicate Ends(c: bytes, e: nat, x: Layout) {
    x.Numeral? ==> At(c, e, x.unread) && (e + |x.unread| < |c| ==> !InNumber(c[e + |x.unread|]))
  }

  // ---- The parser reads every text of the grammar ----

  lemma Starts(k: Libc, x: Layout, levels: int)
    requires Proper(k, x, levels)
    ensures TextOf(x) != [] && 32 < TextOf(x)[0] < 128 && TextOf(x)[0] !in {']' as int, '}' as int, ',' as int}
  {
    hide IsLiteral;
    if x.Literal? {
      LiteralStarts(x.spelling, x.text);
    }
  }

  lemma LiteralStarts(t: bytes, s: bytes)
    requires IsLiteral(t, s)
    ensures |t| >= 2 && t[0] == QUOTE
  {
  }

  lemma SkipsGap(c: bytes, o: nat, t: bytes)
    requires At(c, o, t) && Blank(t) && o + |t| < |c| && c[o + |t|] > 32
    ensures SkipWhitespace(c, o) == o + |t|
  {
    forall i | o <= i < o + |t|
      ensures c[i] <= 32
    {
      assert c[o + (i - o)] == t[i - o];
    }
    SkipsTo(c, o, o + |t|);
  }

  /** Where the first slot's pieces stand. */
  lemma SlotParts(c: bytes, s: nat, slots: seq<Slot>)
    requires slots != [] && At(c, s, SlotsText(slots))
    ensures var x := slots[0];
      var v := s + |x.before|;
      var e := v + |TextOf(x.value)|;
      var p := e + |x.behind|;
      && At(c, s, x.before) && At(c, v, TextOf(x.value)) && At(c, e, x.behind)
      && s + |SlotsText(slots)| == p + (if |slots| > 1 then 1 + |SlotsText(slots[1..])| else 0)
      && (|slots| > 1 ==> p < |c| && c[p] == ',' as int && At(c, p + 1, SlotsText(slots[1..])))
  {
    hide At, TextOf;
    var x := slots[0];
    var comma: bytes := if |slots| > 1 then Ascii(",") else [];
    AtConcat(c, s, SlotText(x) + comma, SlotsText(slots[1..]));
    AtConcat(c, s, SlotText(x), comma);
    SlotAt(c, s, x);
    if |slots| > 1 {
      AtByte(c, s + |SlotText(x)|, ',' as int);
      assert comma == [',' as int];
    }
  }

  lemma SlotAt(c: bytes, s: nat, x: Slot)
    requires At(c, s, SlotText(x))
    ensures var v := s + |x.before|;
      At(c, s, x.before) && At(c, v, TextOf(x.value)) && At(c, v + |TextOf(x.value)|, x.behind)
  {
    hide At, TextOf;
    AtConcat(c, s, x.before + TextOf(x.value), x.behind);
    AtConcat(c, s, x.before, TextOf(x.value));
  }

  lemma BracketParts(c: bytes, o: nat, t: bytes, inside: bytes, open: byte, close: byte)
    requires t == [open] + inside + [close] && At(c, o, t)
    ensures var z := o + 1 + |inside|; z < |c| && c[o] == open && At(c, o + 1, inside) && c[z] == close
  {
    hide At;
    AtConcat(c, o, [open] + inside, [close]);
    AtConcat(c, o, [open], inside);
    AtByte(c, o, open);
    AtByte(c, o + 1 + |inside|, close);
  }

  /** A value in its slot, and the gap behind it up to a byte that is not blank. */
  lemma SlotEnds(c: bytes, s: Slot, e: nat)
    requires At(c, e, s.behind) && Blank(s.behind) && (s.value.Numeral? ==> s.value.unread == [])
    requires var p := e + |s.behind|; p < |c| && c[p] > 32 && !InNumber(c[p])
    ensures Ends(c, e, s.value) && SkipWhitespace(c, e) == e + |s.behind|
  {
    SkipsGap(c, e, s.behind);
    if s.behind != [] {
      AtFirst(c, e, s.behind);
    }
  }

  lemma NumeralReads(k: Libc, c: bytes, o: nat, x: Layout, depth: nat)
    requires x.Numeral? && Stands(k, c, o, x, depth)
    ensures ParseValue(k, c, o, depth) == Ok(MeaningOf(k, x), o + |TextOf(x)|)
  {
    hide NumberEnd, At, InNumber, IsNumberByte;
    var t := x.digits + x.unread;
    AtConcat(c, o, x.digits, x.unread);
    AtFirst(c, o, t);
    NumberEnds(c, o, t);
    NotKeyword(c, o);
  }

  lemma NumberEnds(c: bytes, o: nat, t: bytes)
    requires At(c, o, t) && forall i :: 0 <= i < |t| ==> InNumber(t[i])
    requires o + |t| < |c| ==> !InNumber(c[o + |t|])
    ensures o <= |c| && NumberEnd(c, o) == o + |t| && c[o..o + |t|] == t
  {
    hide InNumber, IsNumberByte;
    var n := o + |t|;
    forall i | o <= i < n
      ensures IsNumberByte(c[i])
    {
      assert c[o + (i - o)] == t[i - o];
      NumberBytesAre(c[i]);
    }
    if n < |c| {
      NumberBytesAre(c[n]);
    }
    NumberRun(c, o, n);
  }

  lemma LiteralReadsAt(k: Libc, c: bytes, o: nat, spelling: bytes, text: bytes, depth: nat)
    requires At(c, o, spelling) && IsLiteral(spelling, text)
    ensures ParseString(c, o) == Ok(text, o + |spelling|)
    ensures ParseValue(k, c, o, depth) == Ok(String(text), o + |spelling|)
  {
    hide IsLiteral;
    LiteralStarts(spelling, text);
    assert c[o..o + |spelling|] == spelling;
    StringsExactly(c, o, text, o + |spelling|);
    Dispatch(k, c, o, depth);
  }

  /** The parser reads every text of the grammar as it means, up to its end. */
  lemma {:induction false} ValueReads(k: Libc, c: bytes, o: nat, x: Layout, depth: nat)
    requires Stands(k, c, o, x, depth)
    ensures ParseValue(k, c, o, depth) == Ok(MeaningOf(k, x), o + |TextOf(x)|)
    decreases x, 2
  {
    hide At, ParseValue, SlotsText, FieldsText, IsLiteral;
    match x
    case Word(item) =>
      KeywordRoundTrip(k, c, o, depth);
    case Numeral(digits, unread) =>
      NumeralReads(k, c, o, x, depth);
    case Literal(spelling, text) =>
      LiteralReadsAt(k, c, o, spelling, text, depth);
    case Brackets(gap, slots) =>
      ArrayReads(k, c, o, x, depth);
    case Braces(gap, fields) =>
      ObjectReads(k, c, o, x, depth);
  }

  lemma {:induction false} ArrayReads(k: Libc, c: bytes, o: nat, x: Layout, depth: nat)
    requires x.Brackets? && Stands(k, c, o, x, depth)
    ensures ParseValue(k, c, o, depth) == Ok(MeaningOf(k, x), o + |TextOf(x)|)
    decreases x, 1
  {
    hide At, ParseValue, ParseElements, SkipWhitespace, SlotsText, ItemsOf;
    var slots := x.slots;
    var inside := if slots == [] then x.gap else SlotsText(slots);
    BracketParts(c, o, TextOf(x), inside, '[' as int, ']' as int);
    Dispatch(k, c, o, depth);
    if slots == [] {
      SkipsGap(c, o + 1, x.gap);
      NoItems(k);
    } else {
      assert ProperSlot(k, slots[0], 1000 - depth - 1) && AllSlot(slots[0], Blank, Anyhow);
      var v := FirstValue(k, c, o + 1, slots, 1000 - depth - 1);
      SlotsRead(k, c, v - 1, o + 1, slots, depth + 1);
    }
  }

  lemma NoItems(k: Libc)
    ensures ItemsOf(k, []) == [] && MembersOf(k, []) == []
  {
  }

  lemma ItemsSplit(k: Libc, slots: seq<Slot>)
    requires slots != []
    ensures ItemsOf(k, slots) == [MeaningOf(k, slots[0].value)] + ItemsOf(k, slots[1..])
    ensures |slots| == 1 ==> ItemsOf(k, slots) == [MeaningOf(k, slots[0].value)]
  {
  }

  lemma MembersSplit(k: Libc, fields: seq<Field>)
    requires fields != []
    ensures var m := Member(fields[0].key, MeaningOf(k, fields[0].slot.value));
      && MembersOf(k, fields) == [m] + MembersOf(k, fields[1..]) && (|fields| == 1 ==> MembersOf(k, fields) == [m])
  {
  }

  /** Behind the opening bracket, or a comma, the first byte that is not blank is that of a value. */
  lemma FirstValue(k: Libc, c: bytes, s: nat, slots: seq<Slot>, levels: int) returns (v: nat)
    requires slots != [] && At(c, s, SlotsText(slots)) && ProperSlot(k, slots[0], levels) && Blank(slots[0].before)
    ensures v == s + |slots[0].before| && v < |c| && c[v] > 32 && c[v] !in {']' as int, '}' as int, ',' as int}
    ensures SkipWhitespace(c, s) == v && SkipWhitespace(c, v) == v
  {
    hide At, SlotsText, TextOf, Proper, SkipWhitespace;
    SlotParts(c, s, slots);
    v := s + |slots[0].before|;
    Starts(k, slots[0].value, levels);
    AtFirst(c, v, TextOf(slots[0].value));
    SkipsGap(c, s, slots[0].before);
    SkipsTo(c, v, v);
  }

  lemma {:induction false} SlotsRead(k: Libc, c: bytes, o: nat, s: nat, slots: seq<Slot>, depth: nat)
    requires slots != [] && At(c, s, SlotsText(slots))
    requires forall i :: 0 <= i < |slots| ==>
      ProperSlot(k, slots[i], 1000 - depth) && AllSlot(slots[i], Blank, Anyhow)
    requires o < |c| && SkipWhitespace(c, o + 1) == s + |slots[0].before|
    requires var z := s + |SlotsText(slots)|; z < |c| && c[z] == ']' as int
    ensures ParseElements(k, c, o, depth) == Ok(ItemsOf(k, slots), s + |SlotsText(slots)| + 1)
    decreases slots, 0
  {
    hide At, ParseValue, ParseElements, SkipWhitespace, SlotsText, TextOf, MeaningOf, ItemsOf, Proper, All;
    var x, rest := slots[0], slots[1..];
    SlotParts(c, s, slots);
    var v := s + |x.before|;
    var e := v + |TextOf(x.value)|;
    var p := e + |x.behind|;
    assert ProperSlot(k, x, 1000 - depth) && AllSlot(x, Blank, Anyhow);
    SlotEnds(c, x, e);
    ValueReads(k, c, v, x.value, depth);
    ItemsSplit(k, slots);
    if rest == [] {
      LastElement(k, c, o, depth, MeaningOf(k, x.value), e);
    } else {
      assert ProperSlot(k, rest[0], 1000 - depth) && AllSlot(rest[0], Blank, Anyhow);
      var w := FirstValue(k, c, p + 1, rest, 1000 - depth);
      SlotsRead(k, c, p, p + 1, rest, depth);
      NextElement(k, c, o, depth, MeaningOf(k, x.value), e, ItemsOf(k, rest), s + |SlotsText(slots)| + 1);
    }
  }

  lemma {:induction false} ObjectReads(k: Libc, c: bytes, o: nat, x: Layout, depth: nat)
    requires x.Braces? && Stands(k, c, o, x, depth)
    ensures ParseValue(k, c, o, depth) == Ok(MeaningOf(k, x), o + |TextOf(x)|)
    decreases x, 1
  {
    hide At, ParseValue, ParseObject, ParseMembers, SkipWhitespace, FieldsText, MembersOf, IsLiteral, ProperSlot,
      AllSlot;
    var fields := x.fields;
    var inside := if fields == [] then x.gap else FieldsText(fields);
    BracketParts(c, o, TextOf(x), inside, '{' as int, '}' as int);
    Dispatch(k, c, o, depth);
    if fields == [] {
      SkipsGap(c, o + 1, x.gap);
      NoItems(k);
      TakesObject(k, c, o, o + 1 + |x.gap|, depth);
    } else {
      assert ProperField(k, fields[0], 1000 - depth - 1) && AllField(fields[0], Blank, Anyhow);
      var q := FirstKey(c, o + 1, fields);
      TakesObject(k, c, o, q, depth);
      FieldsRead(k, c, q - 1, o + 1, fields, depth + 1);
    }
  }

  lemma FieldAt(c: bytes, s: nat, f: Field)
    requires At(c, s, FieldText(f))
    ensures var q := s + |f.before|;
      var r := q + |f.spelling|;
      var colon := r + |f.behind|;
      && At(c, s, f.before) && At(c, q, f.spelling) && At(c, r, f.behind) && colon < |c| && c[colon] == ':' as int
      && At(c, colon + 1, SlotText(f.slot)) && s + |FieldText(f)| == colon + 1 + |SlotText(f.slot)|
  {
    hide At, SlotText;
    var front := f.before + f.spelling + f.behind;
    AtConcat(c, s, front + Ascii(":"), SlotText(f.slot));
    AtConcat(c, s, front, Ascii(":"));
    AtConcat(c, s, f.before + f.spelling, f.behind);
    AtConcat(c, s, f.before, f.spelling);
    assert Ascii(":") == [':' as int];
    AtByte(c, s + |front|, ':' as int);
  }

  lemma FieldParts(c: bytes, s: nat, fields: seq<Field>)
    requires fields != [] && At(c, s, FieldsText(fields))
    ensures var p := s + |FieldText(fields[0])|;
      && At(c, s, FieldText(fields[0]))
      && s + |FieldsText(fields)| == p + (if |fields| > 1 then 1 + |FieldsText(fields[1..])| else 0)
      && (|fields| > 1 ==> p < |c| && c[p] == ',' as int && At(c, p + 1, FieldsText(fields[1..])))
  {
    hide At, FieldText;
    var comma: bytes := if |fields| > 1 then Ascii(",") else [];
    AtConcat(c, s, FieldText(fields[0]) + comma, FieldsText(fields[1..]));
    AtConcat(c, s, FieldText(fields[0]), comma);
    if |fields| > 1 {
      AtByte(c, s + |FieldText(fields[0])|, ',' as int);
      assert comma == [',' as int];
    }
  }

  /** Behind the opening brace, or a comma, the first byte that is not blank is the quote of a key. */
  lemma FirstKey(c: bytes, s: nat, fields: seq<Field>) returns (q: nat)
    requires fields != [] && At(c, s, FieldsText(fields))
    requires Blank(fields[0].before) && IsLiteral(fields[0].spelling, fields[0].key)
    ensures q == s + |fields[0].before| && q < |c| && c[q] == QUOTE
    ensures SkipWhitespace(c, s) == q && SkipWhitespace(c, q) == q
  {
    hide At, FieldsText, FieldText, IsLiteral, SkipWhitespace;
    var f := fields[0];
    FieldParts(c, s, fields);
    FieldAt(c, s, f);
    q := s + |f.before|;
    LiteralStarts(f.spelling, f.key);
    AtFirst(c, q, f.spelling);
    SkipsGap(c, s, f.before);
    SkipsTo(c, q, q);
  }

  /** One turn of parse_object's loop, up to the byte after the value. */
  lemma FieldReads(k: Libc, c: bytes, o: nat, s: nat, f: Field, depth: nat) returns (e: nat)
    requires At(c, s, FieldText(f)) && ProperField(k, f, 1000 - depth) && AllField(f, Blank, Anyhow)
    requires o + 1 < |c| && SkipWhitespace(c, o + 1) == s + |f.before|
    requires var p := s + |FieldText(f)|; p < |c| && c[p] > 32 && !InNumber(c[p])
    ensures TakesMember(k, c, o, depth, Member(f.key, MeaningOf(k, f.slot.value)), e)
    ensures SkipWhitespace(c, e) == s + |FieldText(f)|
    decreases f, 3
  {
    hide At, ParseValue, SkipWhitespace, TextOf, Proper, All, TakesMember, IsLiteral;
    FieldAt(c, s, f);
    var q := s + |f.before|;
    var r := q + |f.spelling|;
    var colon := r + |f.behind|;
    var x := f.slot;
    SlotAt(c, colon + 1, x);
    var v := colon + 1 + |x.before|;
    e := v + |TextOf(x.value)|;
    LiteralReadsAt(k, c, q, f.spelling, f.key, depth);
    SkipsGap(c, r, f.behind);
    Starts(k, x.value, 1000 - depth);
    AtFirst(c, v, TextOf(x.value));
    SkipsGap(c, colon + 1, x.before);
    SlotEnds(c, x, e);
    ValueReads(k, c, v, x.value, depth);
    TakesField(k, c, o, depth, Member(f.key, MeaningOf(k, x.value)), q, r, v, e);
  }

  lemma TakesField(k: Libc, c: bytes, o: nat, depth: nat, m: Member, q: nat, r: nat, v: nat, e: nat)
    requires o + 1 < |c| && SkipWhitespace(c, o + 1) == q && ParseString(c, q) == Ok(m.key, r)
    requires var colon := SkipWhitespace(c, r);
      colon < |c| && c[colon] == ':' as int && SkipWhitespace(c, colon + 1) == v
    requires ParseValue(k, c, v, depth) == Ok(m.item, e)
    ensures TakesMember(k, c, o, depth, m, e)
  {
    hide ParseValue, ParseString, SkipWhitespace;
  }

  lemma {:induction false} FieldsRead(k: Libc, c: bytes, o: nat, s: nat, fields: seq<Field>, depth: nat)
    requires fields != [] && At(c, s, FieldsText(fields))
    requires forall i :: 0 <= i < |fields| ==>
      ProperField(k, fields[i], 1000 - depth) && AllField(fields[i], Blank, Anyhow)
    requires o + 1 < |c| && SkipWhitespace(c, o + 1) == s + |fields[0].before|
    requires var z := s + |FieldsText(fields)|; z < |c| && c[z] == '}' as int
    ensures ParseMembers(k, c, o, depth) == Ok(MembersOf(k, fields), s + |FieldsText(fields)| + 1)
    decreases fields, 0
  {
    hide At, ParseValue, ParseMembers, SkipWhitespace, FieldsText, FieldText, MembersOf, MeaningOf, ProperSlot,
      AllSlot, IsLiteral, Blank;
    var f, rest := fields[0], fields[1..];
    FieldParts(c, s, fields);
    var p := s + |FieldText(f)|;
    assert ProperField(k, f, 1000 - depth) && AllField(f, Blank, Anyhow);
    var e := FieldReads(k, c, o, s, f, depth);
    MembersSplit(k, fields);
    if rest != [] {
      assert ProperField(k, rest[0], 1000 - depth) && AllField(rest[0], Blank, Anyhow);
      var q := FirstKey(c, p + 1, rest);
      FieldsRead(k, c, p, p + 1, rest, depth);
    }
  }

  // ---- Whatever the parser reads is a text of the grammar ----

  lemma {:induction false} SkippedIsBlank(c: bytes, o: nat)
    requires o <= SkipBlanks(c, o) <= |c|
    ensures Blank(c[o..SkipBlanks(c, o)])
    decreases |c| - o
  {
    if o < |c| && c[o] <= 32 {
      SkippedIsBlank(c, o + 1);
      assert c[o..SkipBlanks(c, o)] == [c[o]] + c[o + 1..SkipBlanks(c, o)];
    }
  }

  /** What is skipped is a gap. */
  lemma GapIs(c: bytes, o: nat)
    requires o <= |c| && SkipWhitespace(c, o) < |c|
    ensures var p := SkipWhitespace(c, o); o <= p && Blank(c[o..p]) && At(c, o, c[o..p])
  {
    hide SkipBlanks;
    SkippedIsBlank(c, o);
    var p, b := SkipWhitespace(c, o), SkipBlanks(c, o);
    forall i | 0 <= i < p - o
      ensures c[o..p][i] <= 32
    {
      assert c[o..p][i] == c[o + i] == c[o..b][i];
    }
    AtSlice(c, o, p);
  }

  /** The bytes of a number, and what comes behind them. */
  lemma NumberIs(c: bytes, o: nat, e: nat)
    requires o <= |c| && o <= e <= NumberEnd(c, o)
    ensures var n := NumberEnd(c, o);
      && At(c, o, c[o..e]) && Ends(c, e, Numeral(c[o..e], c[e..n])) && c[o..e] + c[e..n] == c[o..n]
      && forall i :: 0 <= i < n - o ==> InNumber(c[o..n][i])
  {
    hide NumberEnd;
    var n := NumberEnd(c, o);
    NumberBytes(c, o);
    forall i | 0 <= i < n - o
      ensures InNumber(c[o..n][i])
    {
      assert c[o..n][i] == c[o + i];
      NumberBytesAre(c[o + i]);
    }
    AtSlice(c, o, e);
    AtSlice(c, e, n);
    if n < |c| {
      NumberBytesAre(c[n]);
    }
  }

  lemma NumeralIs(k: Libc, c: bytes, o: nat, depth: nat) returns (x: Layout)
    requires o < |c| && (c[o] == '-' as int || '0' as int <= c[o] <= '9' as int)
    requires ParseNumber(k, c, o).Ok?
    ensures Stands(k, c, o, x, depth) && ParseNumber(k, c, o) == Ok(MeaningOf(k, x), o + |TextOf(x)|)
  {
    hide NumberEnd, Ends, At, InNumber;
    var n, e := NumberEnd(c, o), ParseNumber(k, c, o).offset;
    NumberIs(c, o, e);
    x := Numeral(c[o..e], c[e..n]);
  }

  lemma {:induction false} ValueIs(k: Libc, c: bytes, o: nat, depth: nat) returns (x: Layout)
    requires ParseValue(k, c, o, depth).Ok?
    ensures Stands(k, c, o, x, depth) && ParseValue(k, c, o, depth) == Ok(MeaningOf(k, x), o + |TextOf(x)|)
    decreases if o < |c| then |c| - o else 0, 3
  {
    hide At, ParseString, ParseNumber, ParseArray, ParseObject, IsLiteral;
    KeywordRoundTrip(k, c, o, depth);
    if At(c, o, Ascii("null")) {
      x := Word(Null);
    } else if At(c, o, Ascii("false")) {
      x := Word(False);
    } else if At(c, o, Ascii("true")) {
      x := Word(True);
    } else if c[o] == QUOTE {
      var s := ParseString(c, o);
      StringsExactly(c, o, s.value, s.offset);
      AtSlice(c, o, s.offset);
      x := Literal(c[o..s.offset], s.value);
    } else if c[o] == '[' as int {
      x := ArrayIs(k, c, o, depth);
    } else if c[o] == '{' as int {
      x := ObjectIs(k, c, o, depth);
    } else {
      x := NumeralIs(k, c, o, depth);
    }
  }

  lemma BracketsJoin(c: bytes, o: nat, inside: bytes, open: byte, close: byte)
    requires At(c, o + 1, inside) && o < |c| && c[o] == open
    requires o + 1 + |inside| < |c| && c[o + 1 + |inside|] == close
    ensures At(c, o, [open] + inside + [close])
    ensures Ascii("[") == ['[' as int] && Ascii("]") == [']' as int]
    ensures Ascii("{") == ['{' as int] && Ascii("}") == ['}' as int]
  {
    hide At;
    AtConcat(c, o, [open] + inside, [close]);
    AtConcat(c, o, [open], inside);
    AtByte(c, o, open);
    AtByte(c, o + 1 + |inside|, close);
  }

  lemma {:induction false} ArrayIs(k: Libc, c: bytes, o: nat, depth: nat) returns (x: Layout)
    requires o < |c| && ParseArray(k, c, o, depth).Ok?
    ensures Stands(k, c, o, x, depth) && ParseArray(k, c, o, depth) == Ok(MeaningOf(k, x), o + |TextOf(x)|)
    decreases |c| - o, 2
  {
    hide At, ParseElements, SkipWhitespace, SlotsText, ItemsOf;
    var p := SkipWhitespace(c, o + 1);
    GapIs(c, o + 1);
    if c[p] == ']' as int {
      x := Brackets(c[o + 1..p], []);
      NoItems(k);
      BracketsJoin(c, o, c[o + 1..p], '[' as int, ']' as int);
    } else {
      SkipTwice(c, o + 1);
      var slots := SlotsAre(k, c, p - 1, o + 1, depth + 1);
      x := Brackets([], slots);
      BracketsJoin(c, o, SlotsText(slots), '[' as int, ']' as int);
    }
  }

  lemma SkipTwice(c: bytes, o: nat)
    ensures SkipWhitespace(c, SkipWhitespace(c, o)) == SkipWhitespace(c, o)
  {
  }

  lemma SlotJoins(c: bytes, s: nat, x: Slot)
    requires At(c, s, x.before)
    requires var v := s + |x.before|; At(c, v, TextOf(x.value)) && At(c, v + |TextOf(x.value)|, x.behind)
    ensures At(c, s, SlotText(x))
  {
    hide At, TextOf;
    AtConcat(c, s, x.before + TextOf(x.value), x.behind);
    AtConcat(c, s, x.before, TextOf(x.value));
  }

  /** The last slot, or one with a comma and others behind it. */
  lemma SlotsJoin(c: bytes, s: nat, x: Slot, rest: seq<Slot>)
    requires At(c, s, SlotText(x))
    requires rest != [] ==>
      var p := s + |SlotText(x)|; p < |c| && c[p] == ',' as int && At(c, p + 1, SlotsText(rest))
    ensures At(c, s, SlotsText([x] + rest))
    ensures |SlotsText([x] + rest)| == |SlotText(x)| + if rest == [] then 0 else 1 + |SlotsText(rest)|
  {
    hide At, SlotText;
    var all := [x] + rest;
    assert all[1..] == rest;
    var comma: bytes := if |all| > 1 then Ascii(",") else [];
    assert Ascii(",") == [',' as int];
    if rest == [] {
      assert SlotText(x) + [] + [] == SlotText(x);
    } else {
      AtByte(c, s + |SlotText(x)|, ',' as int);
      AtConcat(c, s, SlotText(x), comma);
      AtConcat(c, s, SlotText(x) + comma, SlotsText(rest));
    }
  }

  /** A number that is followed by a blank, a comma or a bracket is read to its end. */
  lemma ReadWhole(c: bytes, e: nat, x: Layout)
    requires Ends(c, e, x) && e <= SkipWhitespace(c, e) < |c| && !InNumber(c[SkipWhitespace(c, e)])
    ensures x.Numeral? && At(c, e, x.unread) && (forall i :: 0 <= i < |x.unread| ==> InNumber(x.unread[i])) ==>
      x.unread == []
  {
    if x.Numeral? && x.unread != [] {
      AtFirst(c, e, x.unread);
    }
  }

  predicate IsMark(b: byte) {
    b as char in {',', ']', '}'}
  }

  /** A value that is read from `v` on, with the gaps around it from `s` up to a comma or a bracket. */
  lemma {:induction false} SlotIs(k: Libc, c: bytes, s: nat, v: nat, depth: nat) returns (x: Slot)
    requires s <= v <= |c| && Blank(c[s..v]) && ParseValue(k, c, v, depth).Ok?
    requires var p := SkipWhitespace(c, ParseValue(k, c, v, depth).offset); p < |c| && IsMark(c[p])
    ensures ProperSlot(k, x, 1000 - depth) && AllSlot(x, Blank, Anyhow) && At(c, s, SlotText(x))
    ensures var r := ParseValue(k, c, v, depth);
      MeaningOf(k, x.value) == r.value && s + |SlotText(x)| == SkipWhitespace(c, r.offset)
    decreases if v < |c| then |c| - v else 0, 4
  {
    hide At, ParseValue, TextOf, All, SkipWhitespace, MeaningOf;
    var y := ValueIs(k, c, v, depth);
    var e := v + |TextOf(y)|;
    var p := SkipWhitespace(c, e);
    GapIs(c, e);
    AtSlice(c, s, v);
    ReadWhole(c, e, y);
    ProperUnread(k, y, 1000 - depth);
    x := Slot(c[s..v], y, c[e..p]);
    SlotJoins(c, s, x);
  }

  lemma ProperUnread(k: Libc, x: Layout, levels: int)
    requires Proper(k, x, levels)
    ensures x.Numeral? ==> forall i :: 0 <= i < |x.unread| ==> InNumber(x.unread[i])
  {
    if x.Numeral? {
      forall i | 0 <= i < |x.unread|
        ensures InNumber(x.unread[i])
      {
        assert x.unread[i] == (x.digits + x.unread)[|x.digits| + i];
      }
    }
  }

  lemma {:induction false} SlotsAre(k: Libc, c: bytes, o: nat, s: nat, depth: nat) returns (slots: seq<Slot>)
    requires o < |c| && ParseElements(k, c, o, depth).Ok?
    requires var v := SkipWhitespace(c, o + 1); s <= v <= |c| && Blank(c[s..v])
    ensures slots != [] && At(c, s, SlotsText(slots))
    ensures forall i :: 0 <= i < |slots| ==>
      ProperSlot(k, slots[i], 1000 - depth) && AllSlot(slots[i], Blank, Anyhow)
    ensures var z := s + |SlotsText(slots)|;
      z < |c| && c[z] == ']' as int && ParseElements(k, c, o, depth) == Ok(ItemsOf(k, slots), z + 1)
    decreases |c| - o, 1
  {
    hide At, ParseValue, SlotsText, SlotText, Proper, ProperSlot, AllSlot, ItemsOf, MeaningOf, SkipWhitespace;
    var v := SkipWhitespace(c, o + 1);
    var p := SkipWhitespace(c, ParseValue(k, c, v, depth).offset);
    var x := SlotIs(k, c, s, v, depth);
    var rest: seq<Slot> := [];
    if c[p] == ',' as int {
      FirstGap(k, c, p, depth);
      rest := SlotsAre(k, c, p, p + 1, depth);
    }
    slots := [x] + rest;
    SlotsJoin(c, s, x, rest);
    ItemsSplit(k, slots);
    assert slots[1..] == rest;
  }

  /** The gap in front of an element that is read. */
  lemma FirstGap(k: Libc, c: bytes, o: nat, depth: nat)
    requires o < |c| && ParseElements(k, c, o, depth).Ok?
    ensures var v := SkipWhitespace(c, o + 1); o + 1 <= v < |c| && Blank(c[o + 1..v])
  {
    hide ParseValue, SkipWhitespace;
    GapIs(c, o + 1);
  }

  lemma {:induction false} ObjectIs(k: Libc, c: bytes, o: nat, depth: nat) returns (x: Layout)
    requires o < |c| && ParseObject(k, c, o, depth).Ok?
    ensures Stands(k, c, o, x, depth) && ParseObject(k, c, o, depth) == Ok(MeaningOf(k, x), o + |TextOf(x)|)
    decreases |c| - o, 2
  {
    hide At, ParseMembers, SkipWhitespace, FieldsText, MembersOf;
    var p := SkipWhitespace(c, o + 1);
    GapIs(c, o + 1);
    if c[p] == '}' as int {
      x := Braces(c[o + 1..p], []);
      NoItems(k);
      BracketsJoin(c, o, c[o + 1..p], '{' as int, '}' as int);
    } else {
      SkipTwice(c, o + 1);
      var fields := FieldsAre(k, c, p - 1, o + 1, depth + 1);
      x := Braces([], fields);
      BracketsJoin(c, o, FieldsText(fields), '{' as int, '}' as int);
    }
  }

  lemma FieldJoins(c: bytes, s: nat, f: Field)
    requires At(c, s, f.before)
    requires var q := s + |f.before|; At(c, q, f.spelling) && At(c, q + |f.spelling|, f.behind)
    requires var colon := s + |f.before| + |f.spelling| + |f.behind|;
      colon < |c| && c[colon] == ':' as int && At(c, colon + 1, SlotText(f.slot))
    ensures At(c, s, FieldText(f))
    ensures |FieldText(f)| == |f.before| + |f.spelling| + |f.behind| + 1 + |SlotText(f.slot)|
  {
    hide At, SlotText;
    var front := f.before + f.spelling + f.behind;
    assert Ascii(":") == [':' as int];
    AtByte(c, s + |front|, ':' as int);
    AtConcat(c, s, front + Ascii(":"), SlotText(f.slot));
    AtConcat(c, s, front, Ascii(":"));
    AtConcat(c, s, f.before + f.spelling, f.behind);
    AtConcat(c, s, f.before, f.spelling);
  }

  lemma FieldsJoin(c: bytes, s: nat, f: Field, rest: seq<Field>)
    requires At(c, s, FieldText(f))
    requires rest != [] ==>
      var p := s + |FieldText(f)|; p < |c| && c[p] == ',' as int && At(c, p + 1, FieldsText(rest))
    ensures At(c, s, FieldsText([f] + rest))
    ensures |FieldsText([f] + rest)| == |FieldText(f)| + if rest == [] then 0 else 1 + |FieldsText(rest)|
  {
    hide At, FieldText;
    var all := [f] + rest;
    assert all[1..] == rest;
    var comma: bytes := if |all| > 1 then Ascii(",") else [];
    assert Ascii(",") == [',' as int];
    if rest == [] {
      assert FieldText(f) + [] + [] == FieldText(f);
    } else {
      AtByte(c, s + |FieldText(f)|, ',' as int);
      AtConcat(c, s, FieldText(f), comma);
      AtConcat(c, s, FieldText(f) + comma, FieldsText(rest));
    }
  }

  /** The pieces of one turn of parse_object's loop that reads a member. */
  lemma MemberParses(k: Libc, c: bytes, o: nat, depth: nat) returns (q: nat, r: nat, colon: nat, v: nat, p: nat)
    requires o < |c| && ParseMembers(k, c, o, depth).Ok?
    ensures o + 1 <= q < |c| && q == SkipWhitespace(c, o + 1) && Blank(c[o + 1..q])
    ensures ParseString(c, q).Ok? && r == ParseString(c, q).offset && q < r <= |c|
    ensures r <= colon < |c| && colon == SkipWhitespace(c, r) && c[colon] == ':' as int && Blank(c[r..colon])
    ensures colon + 1 <= v < |c| && v == SkipWhitespace(c, colon + 1) && Blank(c[colon + 1..v])
    ensures ParseValue(k, c, v, depth).Ok?
    ensures p == SkipWhitespace(c, ParseValue(k, c, v, depth).offset) && p < |c| && o < p
    ensures c[p] in {',' as int, '}' as int}
    ensures var m := Member(ParseString(c, q).value, ParseValue(k, c, v, depth).value);
      if c[p] == '}' as int then ParseMembers(k, c, o, depth) == Ok([m], p + 1)
      else
        var rest := ParseMembers(k, c, p, depth);
        rest.Ok? && ParseMembers(k, c, o, depth) == Ok([m] + rest.value, rest.offset)
  {
    hide ParseValue, ParseString, SkipWhitespace;
    q := SkipWhitespace(c, o + 1);
    r := ParseString(c, q).offset;
    colon := SkipWhitespace(c, r);
    v := SkipWhitespace(c, colon + 1);
    p := SkipWhitespace(c, ParseValue(k, c, v, depth).offset);
    GapIs(c, o + 1);
    GapIs(c, r);
    GapIs(c, colon + 1);
  }

  /** One member, with the gap in front of it from `s` on, up to a comma or a brace at `p`. */
  lemma {:induction false} FieldIs(k: Libc, c: bytes, o: nat, s: nat, depth: nat) returns (f: Field, p: nat)
    requires o < |c| && ParseMembers(k, c, o, depth).Ok?
    requires var q := SkipWhitespace(c, o + 1); s <= q <= |c| && Blank(c[s..q])
    ensures ProperField(k, f, 1000 - depth) && AllField(f, Blank, Anyhow)
    ensures At(c, s, FieldText(f)) && s + |FieldText(f)| == p && o < p < |c| && c[p] in {',' as int, '}' as int}
    ensures var m := Member(f.key, MeaningOf(k, f.slot.value));
      if c[p] == '}' as int then ParseMembers(k, c, o, depth) == Ok([m], p + 1)
      else
        var rest := ParseMembers(k, c, p, depth);
        rest.Ok? && ParseMembers(k, c, o, depth) == Ok([m] + rest.value, rest.offset)
    decreases |c| - o, 0
  {
    hide At, ParseValue, ParseString, FieldText, SlotText, ProperSlot, AllSlot, MeaningOf, SkipWhitespace, IsLiteral,
      Blank, ParseMembers;
    var q, r, colon, v;
    q, r, colon, v, p := MemberParses(k, c, o, depth);
    var x := SlotIs(k, c, colon + 1, v, depth);
    var key := ParseString(c, q).value;
    StringsExactly(c, q, key, r);
    AtSlice(c, s, q);
    AtSlice(c, q, r);
    AtSlice(c, r, colon);
    f := Field(c[s..q], c[q..r], key, c[r..colon], x);
    FieldJoins(c, s, f);
  }

  lemma {:induction false} FieldsAre(k: Libc, c: bytes, o: nat, s: nat, depth: nat) returns (fields: seq<Field>)
    requires o < |c| && ParseMembers(k, c, o, depth).Ok?
    requires var q := SkipWhitespace(c, o + 1); s <= q <= |c| && Blank(c[s..q])
    ensures fields != [] && At(c, s, FieldsText(fields))
    ensures forall i :: 0 <= i < |fields| ==>
      ProperField(k, fields[i], 1000 - depth) && AllField(fields[i], Blank, Anyhow)
    ensures var z := s + |FieldsText(fields)|;
      z < |c| && c[z] == '}' as int && ParseMembers(k, c, o, depth) == Ok(MembersOf(k, fields), z + 1)
    decreases |c| - o, 1
  {
    hide At, FieldsText, FieldText, ProperField, AllField, MembersOf, MeaningOf, SkipWhitespace, Blank, ParseMembers;
    var f, p := FieldIs(k, c, o, s, depth);
    var rest: seq<Field> := [];
    if c[p] == ',' as int {
      FirstFieldGap(k, c, p, depth);
      rest := FieldsAre(k, c, p, p + 1, depth);
    }
    fields := [f] + rest;
    FieldsJoin(c, s, f, rest);
    MembersSplit(k, fields);
    assert fields[1..] == rest;
  }

  /** The gap in front of a key that is read. */
  lemma FirstFieldGap(k: Libc, c: bytes, o: nat, depth: nat)
    requires o < |c| && ParseMembers(k, c, o, depth).Ok?
    ensures var q := SkipWhitespace(c, o + 1); o + 1 <= q < |c| && Blank(c[o + 1..q])
  {
    hide ParseMembers, SkipWhitespace, Blank;
    var q, r, colon, v, p := MemberParses(k, c, o, depth);
  }

  /**
   * parse_value reads an item from `o` up to `e` exactly if a text of the grammar stands there that means the item: any
   * value, with any blanks between its tokens.
   */
  lemma ParsesExactlyTheGrammar(k: Libc, c: bytes, o: nat, depth: nat, item: Item, e: nat)
    ensures ParseValue(k, c, o, depth) == Ok(item, e)
      <==> exists x :: Stands(k, c, o, x, depth) && MeaningOf(k, x) == item && e == o + |TextOf(x)|
  {
    hide ParseValue, Stands, MeaningOf, TextOf;
    if ParseValue(k, c, o, depth) == Ok(item, e) {
      var x := ValueIs(k, c, o, depth);
    }
    forall x | Stands(k, c, o, x, depth)
      ensures ParseValue(k, c, o, depth) == Ok(MeaningOf(k, x), o + |TextOf(x)|)
    {
      ValueReads(k, c, o, x, depth);
    }
  }

  // ---- Printed values with blanks of anyone's choice ----

  /** The layout has the tokens that the printer writes for the item, with any gaps between them. */
  ghost predicate Lays(k: Libc, x: Layout, item: Item)
    decreases item, 1
  {
    match item
    case Number(v) => x == Numeral(NumberText(k, v), [])
    case String(s) => x == Literal(Quoted(s), s)
    case Array(items) =>
      x.Brackets? && |x.slots| == |items| && forall i :: 0 <= i < |items| ==> Lays(k, x.slots[i].value, items[i])
    case Object(members) =>
      x.Braces? && |x.fields| == |members| && forall i :: 0 <= i < |members| ==> LaysMember(k, x.fields[i], members[i])
    case _ => x == Word(item)
  }

  ghost predicate LaysMember(k: Libc, f: Field, m: Member)
    decreases m, 2
  {
    f.spelling == Quoted(m.key) && f.key == m.key && Lays(k, f.slot.value, m.item)
  }

  lemma QuotedIsLiteral(s: bytes)
    ensures IsLiteral(Quoted(s), s)
  {
    hide IsLiteral, Quoted;
    var t := Quoted(s);
    StringRoundTrip(t, 0, s);
    StringsExactly(t, 0, s, |t|);
    assert t[0..|t|] == t;
  }

  lemma {:induction false} DigitsStart(n: nat)
    ensures '0' as int <= Digits(n)[0] <= '9' as int && forall b :: b in Digits(n) ==> InNumber(b)
  {
    if n >= 10 {
      DigitsStart(n / 10);
    }
  }

  lemma DecimalIsNumeral(k: Libc, n: int, levels: int)
    requires ReadsInts(k) && INT_MIN <= n <= INT_MAX
    ensures var x := Numeral(Decimal(n), []); Proper(k, x, levels) && MeaningOf(k, x) == Number(n as real)
  {
    DigitsStart(if n < 0 then -n else n);
    assert Decimal(n) + [] == Decimal(n);
  }

  lemma {:induction false} LaidMeans(k: Libc, x: Layout, item: Item, levels: int)
    requires ReadsInts(k) && Printable(item, levels) && Lays(k, x, item)
    ensures Proper(k, x, levels) && MeaningOf(k, x) == item
    decreases item, 1
  {
    hide IsLiteral, Quoted, Decimal;
    match item {
    case Null =>
    case False =>
    case True =>
    case Number(v) =>
      DecimalIsNumeral(k, IntOf(v), levels);
    case String(s) =>
      QuotedIsLiteral(s);
    case Array(items) =>
      LaidSlotsMean(k, x.slots, items, levels - 1);
    case Object(members) =>
      LaidFieldsMean(k, x.fields, members, levels - 1);
    }
  }

  lemma {:induction false} LaidSlotsMean(k: Libc, slots: seq<Slot>, items: seq<Item>, levels: int)
    requires ReadsInts(k) && PrintableItems(items, levels) && |slots| == |items|
    requires forall i :: 0 <= i < |items| ==> Lays(k, slots[i].value, items[i])
    ensures ItemsOf(k, slots) == items && forall i :: 0 <= i < |slots| ==> ProperSlot(k, slots[i], levels)
    decreases items, 0
  {
    hide Printable, Lays, Proper, MeaningOf;
    if items != [] {
      LaidMeans(k, slots[0].value, items[0], levels);
      LaidUnread(k, slots[0].value, items[0]);
      assert forall i :: 0 <= i < |items| - 1 ==> slots[1..][i] == slots[i + 1] && items[1..][i] == items[i + 1];
      LaidSlotsMean(k, slots[1..], items[1..], levels);
      assert forall i :: 0 < i < |slots| ==> slots[i] == slots[1..][i - 1];
      assert items == [items[0]] + items[1..];
    }
  }

  lemma LaidUnread(k: Libc, x: Layout, item: Item)
    requires Lays(k, x, item)
    ensures x.Numeral? ==> x.unread == []
  {
  }

  lemma {:induction false} LaidFieldsMean(k: Libc, fields: seq<Field>, members: seq<Member>, levels: int)
    requires ReadsInts(k) && PrintableMembers(members, levels) && |fields| == |members|
    requires forall i :: 0 <= i < |members| ==> LaysMember(k, fields[i], members[i])
    ensures MembersOf(k, fields) == members && forall i :: 0 <= i < |fields| ==> ProperField(k, fields[i], levels)
    decreases members, 0
  {
    hide Printable, Lays, Proper, MeaningOf, IsLiteral, Quoted;
    if members != [] {
      var f, m := fields[0], members[0];
      assert LaysMember(k, f, m);
      QuotedIsLiteral(m.key);
      LaidMeans(k, f.slot.value, m.item, levels);
      LaidUnread(k, f.slot.value, m.item);
      assert forall i :: 0 <= i < |members| - 1 ==>
        fields[1..][i] == fields[i + 1] && members[1..][i] == members[i + 1];
      LaidFieldsMean(k, fields[1..], members[1..], levels);
      assert forall i :: 0 < i < |fields| ==> fields[i] == fields[1..][i - 1];
      assert members == [m] + members[1..];
    }
  }

  /**
   * For every item the printer writes faithfully and any blanks before and behind each of its tokens, parse_value reads
   * the item back and ends behind the last token.
   */
  lemma SpacedRoundTrip(k: Libc, c: bytes, o: nat, x: Layout, item: Item, depth: nat)
    requires ReadsInts(k) && Printable(item, 1000 - depth) && Lays(k, x, item) && All(x, Blank, Anyhow)
    requires At(c, o, TextOf(x))
    requires var e := o + |TextOf(x)|; item.Number? && e < |c| ==> !InNumber(c[e])
    ensures ParseValue(k, c, o, depth) == Ok(item, o + |TextOf(x)|)
  {
    hide ParseValue, TextOf, Proper, All;
    LaidMeans(k, x, item, 1000 - depth);
    LaidUnread(k, x, item);
    ValueReads(k, c, o, x, depth);
  }
}
