/** What a JSON text is and what it stands for: values that the printer and the parser of cJSON.c are proved against. */
module JsonText {

  type byte = b: int | 0 <= b < 256

  type bytes = seq<byte>

  const QUOTE: byte := '\"' as int
  const BACKSLASH: byte := '\\' as int

  // CJSON_NESTING_LIMIT
  const NESTING_LIMIT: nat := 1000

  const INT_MAX: int := 0x7FFF_FFFF
  const INT_MIN: int := -0x8000_0000

  datatype Option<T> = None | Some(value: T)

  datatype Item =
    | Null
    | False
    | True
    | Number(value: real)
    | String(text: bytes)
    | Array(items: seq<Item>)
    | Object(members: seq<Member>)

  datatype Member = Member(key: bytes, item: Item)

  /** The library's number conversions: strtod, with how many bytes it used, and the "%1.15g" or "%1.17g" form. */
  datatype Libc = Libc(strtod: bytes -> (real, nat), format: real -> bytes) {
    /** strtod never reads past the end of its text. */
    function Strtod(t: bytes): (r: (real, nat))
      ensures r.1 <= |t|
    {
      var (v, used) := strtod(t);
      (v, if used <= |t| then used else |t|)
    }
  }

  function Ascii(s: string): (r: bytes)
    requires forall i :: 0 <= i < |s| ==> s[i] < 128 as char
    ensures |r| == |s| && forall i :: 0 <= i < |s| ==> r[i] == s[i] as int
  {
    seq(|s|, i requires 0 <= i < |s| => s[i] as int)
  }

  // ---- Strings ----

  /** One lower-case hexadecimal digit. */
  function HexDigit(n: nat): byte
    requires n < 16
  {
    if n < 10 then '0' as int + n else 'a' as int + n - 10
  }

  /** How the printer writes one byte of a string. */
  function Escape(b: byte): (e: bytes)
    ensures 1 <= |e| <= 6
  {
    if b == QUOTE || b == BACKSLASH then [BACKSLASH, b]
    else if b == 8 then [BACKSLASH, 'b' as int]
    else if b == 12 then [BACKSLASH, 'f' as int]
    else if b == 10 then [BACKSLASH, 'n' as int]
    else if b == 13 then [BACKSLASH, 'r' as int]
    else if b == 9 then [BACKSLASH, 't' as int]
    else if b < 32 then [BACKSLASH, 'u' as int, '0' as int, '0' as int, HexDigit(b / 16), HexDigit(b % 16)]
    else [b]
  }

  function EscapeAll(s: bytes): bytes {
    if s == [] then [] else Escape(s[0]) + EscapeAll(s[1..])
  }

  function Quoted(s: bytes): bytes {
    [QUOTE] + EscapeAll(s) + [QUOTE]
  }

  /** The value of one hexadecimal digit, in either case. */
  function HexValue(b: byte): (d: Option<nat>)
    ensures d.Some? ==> d.value < 16
  {
    if '0' as int <= b <= '9' as int then Some(b - '0' as int)
    else if 'A' as int <= b <= 'F' as int then Some(10 + b - 'A' as int)
    else if 'a' as int <= b <= 'f' as int then Some(10 + b - 'a' as int)
    else None
  }

  /** The number that the first `n` of four hexadecimal digits at `p` spell. */
  function HexPrefix(c: bytes, p: nat, n: nat): (h: Option<nat>)
    requires p + 4 <= |c| && n <= 4
    ensures h.Some? ==> h.value < [1, 16, 256, 4096, 65536][n]
  {
    if n == 0 then Some(0)
    else match (HexPrefix(c, p, n - 1), HexValue(c[p + n - 1]))
      case (Some(h), Some(d)) => Some(h * 16 + d)
      case _ => None
  }

  /** Four hexadecimal digits at `p`; anything that is not a digit makes the whole number 0. */
  function Hex4(c: bytes, p: nat): (h: nat)
    requires p + 4 <= |c|
    ensures h < 0x10000
  {
    match HexPrefix(c, p, 4)
    case Some(h) => h
    case None => 0
  }

  /** The encoding of a code point, section 3 of RFC 3629. */
  function Utf8(u: nat): (r: bytes)
    requires u <= 0x10FFFF
    ensures 1 <= |r| <= 4
  {
    if u < 0x80 then [u]
    else if u < 0x800 then [0xC0 + u / 64, 0x80 + u % 64]
    else if u < 0x10000 then [0xE0 + u / 4096, 0x80 + u / 64 % 64, 0x80 + u % 64]
    else [0xF0 + u / 262144, 0x80 + u / 4096 % 64, 0x80 + u / 64 % 64, 0x80 + u % 64]
  }

  /** A decoded escape: the bytes it stands for and how much of the input it took. */
  datatype Decoded = Decoded(out: bytes, taken: nat)

  /** A \uXXXX escape or surrogate pair at `p`, section 2.2 of RFC 2781. */
  function Literal(c: bytes, p: nat, end: nat): (r: Option<Decoded>)
    requires p <= end <= |c|
    ensures r.Some? ==> r.value.taken in {6, 12} && p + r.value.taken <= end
    ensures r.Some? ==> 1 <= |r.value.out| <= (if r.value.taken == 6 then 3 else 4)
  {
    if end - p < 6 then None
    else
      var first := Hex4(c, p + 2);
      if 0xDC00 <= first <= 0xDFFF then None
      else if 0xD800 <= first <= 0xDBFF then
        if end - (p + 6) < 6 || c[p + 6] != BACKSLASH || c[p + 7] != 'u' as int then None
        else
          var second := Hex4(c, p + 8);
          if second < 0xDC00 || second > 0xDFFF then None
          else Some(Decoded(Utf8(0x10000 + (first - 0xD800) * 0x400 + (second - 0xDC00)), 12))
      else Some(Decoded(Utf8(first), 6))
  }

  /** The position of the closing quote of a literal whose contents start at `p`. */
  function ScanEnd(c: bytes, p: nat): (r: Option<nat>)
    ensures r.Some? ==> p <= r.value < |c| && c[r.value] == QUOTE
    decreases |c| - p
  {
    if p >= |c| then None
    else if c[p] == QUOTE then Some(p)
    else if c[p] == BACKSLASH then (if p + 1 >= |c| then None else ScanEnd(c, p + 2))
    else ScanEnd(c, p + 1)
  }

  /** What a one-letter escape stands for. */
  function SimpleEscape(b: byte): Option<byte> {
    if b == 'b' as int then Some(8)
    else if b == 'f' as int then Some(12)
    else if b == 'n' as int then Some(10)
    else if b == 'r' as int then Some(13)
    else if b == 't' as int then Some(9)
    else if b == QUOTE || b == BACKSLASH || b == '/' as int then Some(b)
    else None
  }

  /** One step of the decoding pass. */
  function DecodeOne(c: bytes, p: nat, end: nat): (r: Option<Decoded>)
    requires p < end < |c|
    ensures r.Some? ==> 1 <= r.value.taken && p + r.value.taken <= end + 1
    ensures r.Some? ==> 1 <= |r.value.out| <= 4
  {
    if c[p] != BACKSLASH then Some(Decoded([c[p]], 1))
    else if c[p + 1] == 'u' as int then Literal(c, p, end)
    else match SimpleEscape(c[p + 1])
      case Some(b) => Some(Decoded([b], 2))
      case None => None
  }

  /** The bytes that the input from `p` up to `end` stands for. */
  function DecodeAll(c: bytes, p: nat, end: nat): Option<bytes>
    requires end < |c|
    decreases end - p
  {
    if p >= end then Some([])
    else match DecodeOne(c, p, end)
      case None => None
      case Some(d) =>
        match DecodeAll(c, p + d.taken, end)
        case None => None
        case Some(rest) => Some(d.out + rest)
  }

  datatype Parsed<T> = Ok(value: T, offset: nat) | Err

  /** A string literal at `o`. */
  function ParseString(c: bytes, o: nat): (r: Parsed<bytes>)
    ensures r.Ok? ==> o < r.offset <= |c|
  {
    if o >= |c| || c[o] != QUOTE then Err
    else match ScanEnd(c, o + 1)
      case None => Err
      case Some(end) =>
        match DecodeAll(c, o + 1, end)
        case None => Err
        case Some(s) => Ok(s, end + 1)
  }

  // ---- A printed string reads back ----

  /** The text `t` stands at `o`. */
  predicate At(c: bytes, o: nat, t: bytes) {
    o + |t| <= |c| && forall i {:trigger t[i]} :: 0 <= i < |t| ==> c[o + i] == t[i]
  }

  lemma AtConcat(c: bytes, o: nat, s: bytes, t: bytes)
    ensures At(c, o, s + t) <==> At(c, o, s) && At(c, o + |s|, t)
  {
    if At(c, o, s + t) {
      forall i | 0 <= i < |s|
        ensures c[o + i] == s[i]
      {
        assert (s + t)[i] == s[i];
      }
      forall i | 0 <= i < |t|
        ensures c[o + |s| + i] == t[i]
      {
        assert (s + t)[|s| + i] == t[i];
      }
    }
  }

  lemma AtByte(c: bytes, o: nat, b: byte)
    ensures At(c, o, [b]) <==> o < |c| && c[o] == b
  {
    assert [b][0] == b;
  }

  lemma AtLength(c: bytes, o: nat, t: bytes)
    requires At(c, o, t)
    ensures o + |t| <= |c|
  {
  }

  lemma AtPair(c: bytes, o: nat, a: byte, b: byte)
    requires At(c, o, [a, b])
    ensures o + 2 <= |c| && c[o] == a && c[o + 1] == b
  {
    assert [a, b][0] == c[o + 0] && [a, b][1] == c[o + 1];
  }

  lemma AtFirst(c: bytes, o: nat, t: bytes)
    requires |t| > 0
    ensures At(c, o, t) ==> o < |c| && c[o] == t[0]
  {
    assert At(c, o, t) ==> c[o + 0] == t[0];
  }

  lemma AtSlice(c: bytes, o: nat, e: nat)
    requires o <= e <= |c|
    ensures At(c, o, c[o..e])
  {
  }

  lemma EscapeScans(c: bytes, p: nat, b: byte)
    requires At(c, p, Escape(b))
    ensures ScanEnd(c, p) == ScanEnd(c, p + |Escape(b)|)
  {
    var e := Escape(b);
    assert c[p + 0] == e[0];
    if |e| == 6 {
      assert c[p + 2] == e[2] && c[p + 3] == e[3] && c[p + 4] == e[4] && c[p + 5] == e[5];
      assert ScanEnd(c, p) == ScanEnd(c, p + 2) == ScanEnd(c, p + 3) == ScanEnd(c, p + 4);
      assert ScanEnd(c, p + 4) == ScanEnd(c, p + 5) == ScanEnd(c, p + 6);
    }
  }

  lemma EscapeDecodes(c: bytes, p: nat, end: nat, b: byte)
    requires p + |Escape(b)| <= end < |c| && At(c, p, Escape(b))
    ensures DecodeOne(c, p, end) == Some(Decoded([b], |Escape(b)|))
  {
    var e := Escape(b);
    assert c[p + 0] == e[0] && (|e| > 1 ==> c[p + 1] == e[1]);
    if |e| == 6 {
      assert c[p + 2] == e[2] && c[p + 3] == e[3] && c[p + 4] == e[4] && c[p + 5] == e[5];
      assert HexValue(c[p + 4]) == Some(b / 16) && HexValue(c[p + 5]) == Some(b % 16);
      assert HexPrefix(c, p + 2, 1) == Some(0) && HexPrefix(c, p + 2, 2) == Some(0)
        && HexPrefix(c, p + 2, 3) == Some(b / 16);
      assert Hex4(c, p + 2) == b;
    }
  }

  lemma {:induction false} EscapedReadsBack(c: bytes, p: nat, end: nat, s: bytes)
    requires end == p + |EscapeAll(s)| < |c| && At(c, p, EscapeAll(s)) && c[end] == QUOTE
    ensures ScanEnd(c, p) == Some(end) && DecodeAll(c, p, end) == Some(s)
    decreases |s|
  {
    hide At, Escape, DecodeOne;
    if s != [] {
      AtConcat(c, p, Escape(s[0]), EscapeAll(s[1..]));
      EscapeScans(c, p, s[0]);
      EscapeDecodes(c, p, end, s[0]);
      EscapedReadsBack(c, p + |Escape(s[0])|, end, s[1..]);
      assert s == [s[0]] + s[1..];
    }
  }

  lemma QuotedParts(c: bytes, o: nat, s: bytes)
    requires At(c, o, Quoted(s))
    ensures c[o] == QUOTE && At(c, o + 1, EscapeAll(s)) && o + 1 + |EscapeAll(s)| < |c|
      && c[o + 1 + |EscapeAll(s)|] == QUOTE
  {
    AtConcat(c, o, [QUOTE] + EscapeAll(s), [QUOTE]);
    AtConcat(c, o, [QUOTE], EscapeAll(s));
    AtByte(c, o, QUOTE);
    AtByte(c, o + 1 + |EscapeAll(s)|, QUOTE);
  }

  /** parse_string undoes print_string_ptr and stops right after the closing quote. */
  lemma StringRoundTrip(c: bytes, o: nat, s: bytes)
    requires At(c, o, Quoted(s))
    ensures ParseString(c, o) == Ok(s, o + |Quoted(s)|)
  {
    QuotedParts(c, o, s);
    EscapedReadsBack(c, o + 1, o + 1 + |EscapeAll(s)|, s);
  }

  // ---- The text of a value ----

  function Digits(n: nat): (t: bytes)
    ensures |t| > 0 && forall i :: 0 <= i < |t| ==> '0' as int <= t[i] <= '9' as int
  {
    if n < 10 then ['0' as int + n] else Digits(n / 10) + ['0' as int + n % 10]
  }

  /** The "%d" form. */
  function Decimal(n: int): bytes {
    if n < 0 then ['-' as int] + Digits(-n) else Digits(n)
  }

  /** valueint: the number cut to an int, saturated at both ends. */
  function IntOf(v: real): (n: int)
    ensures INT_MIN <= n <= INT_MAX
  {
    if v >= INT_MAX as real then INT_MAX
    else if v <= INT_MIN as real then INT_MIN
    else if v >= 0.0 then v.Floor else -((-v).Floor)
  }

  function NumberText(k: Libc, v: real): bytes {
    if v == IntOf(v) as real then Decimal(IntOf(v)) else k.format(v)
  }

  function Tabs(n: nat): bytes {
    seq(n, _ => 9)
  }

  function ItemText(k: Libc, item: Item, format: bool, depth: nat): bytes
    decreases item, 1
  {
    match item
    case Null => Ascii("null")
    case False => Ascii("false")
    case True => Ascii("true")
    case Number(v) => NumberText(k, v)
    case String(s) => Quoted(s)
    case Array(items) => ['[' as int] + ItemsText(k, items, format, depth + 1) + [']' as int]
    case Object(members) =>
      (if format then ['{' as int, 10] else ['{' as int]) + MembersText(k, members, format, depth + 1)
      + (if format then Tabs(depth) else []) + ['}' as int]
  }

  function Separator(format: bool): bytes {
    if format then [',' as int, ' ' as int] else [',' as int]
  }

  function ItemsText(k: Libc, items: seq<Item>, format: bool, depth: nat): bytes
    decreases items, 0
  {
    if items == [] then []
    else
      ItemText(k, items[0], format, depth) + (if |items| > 1 then Separator(format) else [])
      + ItemsText(k, items[1..], format, depth)
  }

  function MemberText(k: Libc, m: Member, last: bool, format: bool, depth: nat): bytes
    decreases m, 2
  {
    (if format then Tabs(depth) else []) + Quoted(m.key) + (if format then [':' as int, 9] else [':' as int])
    + ItemText(k, m.item, format, depth) + (if last then [] else [',' as int]) + (if format then [10] else [])
  }

  function MembersText(k: Libc, members: seq<Member>, format: bool, depth: nat): bytes
    decreases members, 0
  {
    if members == [] then []
    else MemberText(k, members[0], |members| == 1, format, depth) + MembersText(k, members[1..], format, depth)
  }

  // ---- The value of a text ----

  function SkipBlanks(c: bytes, o: nat): (p: nat)
    ensures p >= o && (o < |c| ==> p <= |c|) && (o >= |c| ==> p == o)
    ensures p < |c| ==> c[p] > 32
    decreases |c| - o
  {
    if o < |c| && c[o] <= 32 then SkipBlanks(c, o + 1) else o
  }

  /** buffer_skip_whitespace: at the very end it steps back onto the last byte. */
  function SkipWhitespace(c: bytes, o: nat): (p: nat)
    ensures p >= o && (o < |c| ==> p < |c|) && (o >= |c| ==> p == o)
  {
    if o >= |c| then o
    else if SkipBlanks(c, o) == |c| then |c| - 1 else SkipBlanks(c, o)
  }

  predicate IsNumberByte(b: byte) {
    '0' as int <= b <= '9' as int || b in {'+' as int, '-' as int, 'e' as int, 'E' as int, '.' as int}
  }

  function NumberEnd(c: bytes, o: nat): (e: nat)
    requires o <= |c|
    ensures o <= e <= |c|
    decreases |c| - o
  {
    if o < |c| && IsNumberByte(c[o]) then NumberEnd(c, o + 1) else o
  }

  function ParseNumber(k: Libc, c: bytes, o: nat): (r: Parsed<Item>)
    requires o < |c|
    ensures r.Ok? ==> o < r.offset <= |c|
  {
    var (v, used) := k.Strtod(c[o..NumberEnd(c, o)]);
    if used == 0 then Err else Ok(Number(v), o + used)
  }

  function ParseValue(k: Libc, c: bytes, o: nat, depth: nat): (r: Parsed<Item>)
    ensures r.Ok? ==> o < r.offset <= |c|
    decreases if o < |c| then |c| - o else 0, 3
  {
    if At(c, o, Ascii("null")) then Ok(Null, o + 4)
    else if At(c, o, Ascii("false")) then Ok(False, o + 5)
    else if At(c, o, Ascii("true")) then Ok(True, o + 4)
    else if o >= |c| then Err
    else if c[o] == QUOTE then
      match ParseString(c, o)
      case Err => Err
      case Ok(s, e) => Ok(String(s), e)
    else if c[o] == '-' as int || '0' as int <= c[o] <= '9' as int then ParseNumber(k, c, o)
    else if c[o] == '[' as int then ParseArray(k, c, o, depth)
    else if c[o] == '{' as int then ParseObject(k, c, o, depth)
    else Err
  }

  function ParseArray(k: Libc, c: bytes, o: nat, depth: nat): (r: Parsed<Item>)
    requires o < |c|
    ensures r.Ok? ==> o < r.offset <= |c|
    decreases |c| - o, 2
  {
    var p := SkipWhitespace(c, o + 1);
    if depth >= NESTING_LIMIT || c[o] != '[' as int || p >= |c| then Err
    else if c[p] == ']' as int then Ok(Array([]), p + 1)
    else match ParseElements(k, c, p - 1, depth + 1)
      case Err => Err
      case Ok(items, e) => Ok(Array(items), e)
  }

  /** The elements after position `o`, which holds the opening bracket, a comma or a blank. */
  function ParseElements(k: Libc, c: bytes, o: nat, depth: nat): (r: Parsed<seq<Item>>)
    requires o < |c|
    ensures r.Ok? ==> o < r.offset <= |c|
    decreases |c| - o, 1
  {
    match ParseValue(k, c, SkipWhitespace(c, o + 1), depth)
    case Err => Err
    case Ok(item, e) =>
      var p := SkipWhitespace(c, e);
      if p >= |c| then Err
      else if c[p] == ',' as int then
        match ParseElements(k, c, p, depth)
        case Err => Err
        case Ok(rest, z) => Ok([item] + rest, z)
      else if c[p] == ']' as int then Ok([item], p + 1)
      else Err
  }

  function ParseObject(k: Libc, c: bytes, o: nat, depth: nat): (r: Parsed<Item>)
    requires o < |c|
    ensures r.Ok? ==> o < r.offset <= |c|
    decreases |c| - o, 2
  {
    var p := SkipWhitespace(c, o + 1);
    if depth >= NESTING_LIMIT || c[o] != '{' as int || p >= |c| then Err
    else if c[p] == '}' as int then Ok(Object([]), p + 1)
    else match ParseMembers(k, c, p - 1, depth + 1)
      case Err => Err
      case Ok(members, e) => Ok(Object(members), e)
  }

  function ParseMembers(k: Libc, c: bytes, o: nat, depth: nat): (r: Parsed<seq<Member>>)
    requires o < |c|
    ensures r.Ok? ==> o < r.offset <= |c|
    decreases |c| - o, 1
  {
    if o + 1 >= |c| then Err
    else match ParseString(c, SkipWhitespace(c, o + 1))
      case Err => Err
      case Ok(key, e) =>
        var colon := SkipWhitespace(c, e);
        if colon >= |c| || c[colon] != ':' as int then Err
        else match ParseValue(k, c, SkipWhitespace(c, colon + 1), depth)
          case Err => Err
          case Ok(item, f) =>
            var p := SkipWhitespace(c, f);
            if p >= |c| then Err
            else if c[p] == ',' as int then
              match ParseMembers(k, c, p, depth)
              case Err => Err
              case Ok(rest, z) => Ok([Member(key, item)] + rest, z)
            else if c[p] == '}' as int then Ok([Member(key, item)], p + 1)
            else Err
  }

  // ---- What can be read back ----

  predicate NulFree(s: bytes) {
    0 !in s
  }

  /**
   * The values the printer writes faithfully: int-range numbers, strings without a NUL byte,
   * and arrays and objects that nest at most `levels` deep.
   */
  predicate Printable(item: Item, levels: int)
    decreases item, 1
  {
    match item
    case Null => true
    case False => true
    case True => true
    case Number(v) => v == IntOf(v) as real
    case String(s) => NulFree(s)
    case Array(items) => levels > 0 && PrintableItems(items, levels - 1)
    case Object(members) => levels > 0 && PrintableMembers(members, levels - 1)
  }

  predicate PrintableItems(items: seq<Item>, levels: int)
    decreases items, 0
  {
    items == [] || (Printable(items[0], levels) && PrintableItems(items[1..], levels))
  }

  predicate PrintableMembers(members: seq<Member>, levels: int)
    decreases members, 0
  {
    members == [] ||
    (NulFree(members[0].key) && Printable(members[0].item, levels) && PrintableMembers(members[1..], levels))
  }

  /** strtod reads the plain decimal form of an int exactly and to its end. */
  ghost predicate ReadsInts(k: Libc) {
    forall n {:trigger Decimal(n)} :: INT_MIN <= n <= INT_MAX ==> k.Strtod(Decimal(n)) == (n as real, |Decimal(n)|)
  }

  /** The number that decimal digits spell. */
  function DigitsValue(t: bytes): nat {
    if t == [] then 0
    else
      var n := |t| - 1;
      10 * DigitsValue(t[..n]) + if '0' as int <= t[n] <= '9' as int then t[n] - '0' as int else 0
  }

  lemma {:induction false} DigitsRoundTrip(n: nat)
    ensures DigitsValue(Digits(n)) == n
  {
    if n < 10 {
      assert Digits(n)[..0] == [] && Digits(n)[0] == '0' as int + n;
      assert DigitsValue([]) == 0;
    } else {
      DigitsRoundTrip(n / 10);
      var last := '0' as int + n % 10;
      assert (Digits(n / 10) + [last])[..|Digits(n / 10)|] == Digits(n / 10);
    }
  }

  /** A library that reads signed decimal digits. */
  function DecimalLibc(): Libc {
    var read := (t: bytes) =>
      if t != [] && t[0] == '-' as int then (-(DigitsValue(t[1..]) as real), |t|) else (DigitsValue(t) as real, |t|);
    Libc(read, v => Decimal(IntOf(v)))
  }

  /** So what the round trips ask of the library can be had. */
  lemma SomeLibcReadsInts()
    ensures ReadsInts(DecimalLibc())
  {
    forall n {:trigger Decimal(n)} | INT_MIN <= n <= INT_MAX
      ensures DecimalLibc().Strtod(Decimal(n)) == (n as real, |Decimal(n)|)
    {
      var m := if n < 0 then -n else n;
      DigitsRoundTrip(m);
      if n < 0 {
        assert Decimal(n)[1..] == Digits(m);
      }
    }
  }

  /** A number that ends at `o` is not continued there. */
  predicate Stops(c: bytes, o: nat) {
    o < |c| ==> !IsNumberByte(c[o])
  }
}
