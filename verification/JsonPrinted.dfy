/** The bytes that cJSON.c prints, written out: what the bytes of a string become and what stands between the tokens. */
module JsonPrinted {
  import opened JsonText
  import opened JsonLiteral

  /** The parts one after the other, with `mark` between each two. */
  function Join(parts: seq<bytes>, mark: bytes): bytes {
    if parts == [] then [] else parts[0] + (if |parts| > 1 then mark else []) + Join(parts[1..], mark)
  }

  // ---- Strings ----

  const DIGITS: string := "0123456789abcdef"

  /** How the byte `b` is printed. */
  predicate Prints(b: byte, t: bytes) {
    if b == 34 then t == Ascii("\\\"")
    else if b == 92 then t == Ascii("\\\\")
    else if b == 8 then t == Ascii("\\b")
    else if b == 12 then t == Ascii("\\f")
    else if b == 10 then t == Ascii("\\n")
    else if b == 13 then t == Ascii("\\r")
    else if b == 9 then t == Ascii("\\t")
    else if b < 32 then t == Ascii("\\u00") + [DIGITS[b / 16] as int, DIGITS[b % 16] as int]
    else t == [b]
  }

  lemma EscapePrints(b: byte)
    ensures Prints(b, Escape(b))
  {
  }

  lemma PrintsOne(b: byte, s: bytes, t: bytes)
    requires Prints(b, s) && Prints(b, t)
    ensures s == t
  {
  }

  /** A string is printed as the parts that its bytes are printed as, one after the other, between quotes. */
  lemma {:induction false} PrintedString(s: bytes, parts: seq<bytes>)
    requires |parts| == |s| && forall i :: 0 <= i < |s| ==> Prints(s[i], parts[i])
    ensures Quoted(s) == Ascii("\"") + Concat(parts) + Ascii("\"")
  {
    hide Prints;
    Escaped(s, parts);
    assert Ascii("\"") == [QUOTE];
  }

  lemma {:induction false} Escaped(s: bytes, parts: seq<bytes>)
    requires |parts| == |s| && forall i :: 0 <= i < |s| ==> Prints(s[i], parts[i])
    ensures EscapeAll(s) == Concat(parts)
  {
    hide Prints, Escape;
    if s != [] {
      EscapePrints(s[0]);
      PrintsOne(s[0], Escape(s[0]), parts[0]);
      Escaped(s[1..], parts[1..]);
    }
  }

  // ---- Numbers and words ----

  lemma PrintedWords(k: Libc, format: bool, column: nat)
    ensures ItemText(k, Null, format, column) == Ascii("null")
    ensures ItemText(k, False, format, column) == Ascii("false")
    ensures ItemText(k, True, format, column) == Ascii("true")
  {
  }

  /** The decimal form of `n`: a sign only if negative, and no zero in front of other digits. */
  predicate IsDecimal(t: bytes, n: int) {
    if n < 0 then t != [] && t[0] == '-' as int && IsNatural(t[1..], -n) else IsNatural(t, n)
  }

  predicate IsNatural(t: bytes, n: nat) {
    && t != [] && (|t| > 1 ==> t[0] != '0' as int) && (forall i :: 0 <= i < |t| ==> t[i] as char in "0123456789")
    && DigitsValue(t) == n
  }

  lemma {:induction false} DigitsAre(n: nat)
    ensures IsNatural(Digits(n), n) && (n > 0 ==> Digits(n)[0] != '0' as int)
  {
    hide DigitsValue;
    DigitsRoundTrip(n);
    if n >= 10 {
      DigitsAre(n / 10);
      assert Digits(n)[0] == Digits(n / 10)[0];
    }
  }

  /**
   * A number that is an int, as a 32-bit integer, is printed in its decimal form, and any other as the library's
   * formatting gives it.
   */
  lemma PrintedNumber(k: Libc, v: real, format: bool, column: nat)
    ensures var t := ItemText(k, Number(v), format, column);
      if v == v.Floor as real && -2147483648 <= v.Floor <= 2147483647 then IsDecimal(t, v.Floor) else t == k.format(v)
  {
    var n := IntOf(v);
    IntOfIs(v);
    DigitsAre(if n < 0 then -n else n);
    if n < 0 {
      assert Decimal(n)[1..] == Digits(-n);
    }
  }

  lemma IntOfIs(v: real)
    ensures v == IntOf(v) as real <==> v == v.Floor as real && -2147483648 <= v.Floor <= 2147483647
    ensures v == IntOf(v) as real ==> IntOf(v) == v.Floor
  {
    if v < 0.0 {
      assert (-v).Floor == -(v.Floor) || v != v.Floor as real;
    }
  }

  // ---- Arrays and objects ----

  /** The texts of the elements, one column further in. */
  function Texts(k: Libc, items: seq<Item>, format: bool, column: nat): seq<bytes> {
    seq(|items|, i requires 0 <= i < |items| => ItemText(k, items[i], format, column))
  }

  lemma {:induction false} ItemsAreJoined(k: Libc, items: seq<Item>, format: bool, column: nat)
    ensures ItemsText(k, items, format, column)
      == Join(Texts(k, items, format, column), if format then Ascii(", ") else Ascii(","))
    decreases |items|
  {
    hide ItemText;
    if items != [] {
      assert Texts(k, items, format, column)[1..] == Texts(k, items[1..], format, column);
      ItemsAreJoined(k, items[1..], format, column);
    }
  }

  /** The elements between brackets, with a comma between each two, and a space behind it if the text is formatted. */
  lemma PrintedArray(k: Libc, items: seq<Item>, format: bool, column: nat)
    ensures ItemText(k, Array(items), format, column)
      == Ascii("[") + Join(Texts(k, items, format, column + 1), if format then Ascii(", ") else Ascii(",")) + Ascii("]")
  {
    ItemsAreJoined(k, items, format, column + 1);
    assert Ascii("[") == ['[' as int] && Ascii("]") == [']' as int];
  }

  /** One member each: formatted, it is indented by tabs, and a tab stands behind the colon. */
  function Lines(k: Libc, members: seq<Member>, format: bool, column: nat): seq<bytes> {
    seq(|members|, i requires 0 <= i < |members| =>
      (if format then seq(column, _ => 9) else []) + Quoted(members[i].key)
      + (if format then Ascii(":\t") else Ascii(":")) + ItemText(k, members[i].item, format, column))
  }

  lemma {:induction false} MembersAreJoined(k: Libc, members: seq<Member>, format: bool, column: nat)
    ensures MembersText(k, members, format, column)
      == Join(Lines(k, members, format, column), if format then Ascii(",\n") else Ascii(","))
         + if format && members != [] then Ascii("\n") else []
    decreases |members|
  {
    hide ItemText, MemberText, Quoted;
    if members != [] {
      assert Lines(k, members, format, column)[1..] == Lines(k, members[1..], format, column);
      MembersAreJoined(k, members[1..], format, column);
      OneLine(k, members, format, column);
    }
  }

  lemma OneLine(k: Libc, members: seq<Member>, format: bool, column: nat)
    requires members != []
    ensures var last := |members| == 1;
      MemberText(k, members[0], last, format, column) == Lines(k, members, format, column)[0]
        + (if last then if format then Ascii("\n") else [] else if format then Ascii(",\n") else Ascii(","))
  {
    hide ItemText, Quoted;
    assert Ascii(",\n") == [',' as int] + [10] && Ascii("\n") == [10] && Ascii(",") == [',' as int];
    assert Ascii(":\t") == [':' as int, 9] && Ascii(":") == [':' as int];
    assert Tabs(column) == seq(column, _ => 9);
  }

  /**
   * The members between braces, with a comma between each two. Formatted, each stands on a line of its own, one tab
   * further in than the brace that closes the object.
   */
  lemma PrintedObject(k: Libc, members: seq<Member>, format: bool, column: nat)
    ensures ItemText(k, Object(members), format, column)
      == (if format then Ascii("{\n") else Ascii("{"))
         + Join(Lines(k, members, format, column + 1), if format then Ascii(",\n") else Ascii(","))
         + (if format && members != [] then Ascii("\n") else []) + (if format then seq(column, _ => 9) else [])
         + Ascii("}")
  {
    hide Join, Lines, MembersText;
    MembersAreJoined(k, members, format, column + 1);
    assert Ascii("{\n") == ['{' as int, 10] && Ascii("{") == ['{' as int] && Ascii("}") == ['}' as int];
    assert Tabs(column) == seq(column, _ => 9);
    var open: bytes := if format then Ascii("{\n") else Ascii("{");
    var lines := Join(Lines(k, members, format, column + 1), if format then Ascii(",\n") else Ascii(","));
    var last: bytes := if format && members != [] then Ascii("\n") else [];
    assert open + (lines + last) == open + lines + last;
  }
}
