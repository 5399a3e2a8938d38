/**
 * The string literals that cJSON.c parses, by what they are made of. The parser takes exactly these, and reads each as
 * what its pieces stand for.
 */
module JsonLiteral {
  import opened JsonText
  import opened JsonUnicode

  function Concat(parts: seq<bytes>): bytes {
    if parts == [] then [] else parts[0] + Concat(parts[1..])
  }

  /** What the scan for the closing quote takes at once: a byte, or a backslash and whatever follows it. */
  predicate IsUnit(t: bytes) {
    (|t| == 1 && t[0] != '\"' as int && t[0] != '\\' as int) || (|t| == 2 && t[0] == '\\' as int)
  }

  predicate AreUnits(parts: seq<bytes>) {
    forall i :: 0 <= i < |parts| ==> IsUnit(parts[i])
  }

  /** The escapes of one letter. */
  predicate StandsFor(letter: byte, b: byte) {
    (letter as char, b as int) in
      {('b', 8), ('f', 12), ('n', 10), ('r', 13), ('t', 9), ('\"', 34), ('\\', 92), ('/', 47)}
  }

  /** The escapes of the code point that `value` encodes. */
  predicate SpellsOut(t: bytes, value: bytes) {
    var u := FromUtf8(value);
    u.Some? && u.value >= 0 && IsScalar(u.value) && |t| == 6 * |Utf16(u.value)| && EscapesAt(t, 0, Utf16(u.value))
  }

  /**
   * The pieces of a literal and what each stands for: a byte stands for itself; an escape may have one letter or spell
   * a code point; one whose digits are none stands for a NUL byte.
   */
  ghost predicate Means(t: bytes, value: bytes) {
    || (|t| == 1 && t[0] != '\\' as int && value == t)
    || (|t| == 2 && t[0] == '\\' as int && |value| == 1 && StandsFor(t[1], value[0]))
    || SpellsOut(t, value)
    || (|t| == 6 && t[0] == '\\' as int && t[1] == 'u' as int && !HexDigits(t, 2) && value == [0])
  }

  ghost predicate AllMean(texts: seq<bytes>, values: seq<bytes>) {
    |texts| == |values| && forall i :: 0 <= i < |texts| ==> Means(texts[i], values[i])
  }

  /**
   * The pieces make up everything between the quotes; where such digits hide a backslash from the decoder but not from
   * the scan, the last piece may be an escaped quote that takes the closing one.
   */
  predicate Covers(texts: seq<bytes>, t: bytes) {
    && |t| >= 2
    && (Concat(texts) == t[1..|t| - 1] || (Concat(texts) == t[1..] && texts != [] && |texts[|texts| - 1]| == 2))
  }

  /** A literal with its quotes, and the string it stands for. */
  ghost predicate IsLiteral(t: bytes, s: bytes) {
    && |t| >= 2 && t[0] == '\"' as int && t[|t| - 1] == '\"' as int
    && (exists units :: AreUnits(units) && Concat(units) == t[1..|t| - 1])
    && (exists texts, values :: AllMean(texts, values) && Concat(values) == s && Covers(texts, t))
  }

  lemma {:induction false} UnitsScan(c: bytes, p: nat, e: nat, units: seq<bytes>)
    requires p <= e < |c| && c[e] == QUOTE && AreUnits(units) && c[p..e] == Concat(units)
    ensures ScanEnd(c, p) == Some(e)
    decreases |units|
  {
    if units != [] {
      var u := units[0];
      assert IsUnit(u);
      assert c[p] == c[p..e][0] && c[p + |u|..e] == c[p..e][|u|..];
      UnitsScan(c, p + |u|, e, units[1..]);
    }
  }

  lemma {:induction false} ScanUnits(c: bytes, p: nat) returns (units: seq<bytes>)
    requires ScanEnd(c, p).Some?
    ensures AreUnits(units) && c[p..ScanEnd(c, p).value] == Concat(units)
    decreases |c| - p
  {
    var e := ScanEnd(c, p).value;
    if c[p] == QUOTE {
      units := [];
    } else {
      var n := if c[p] == BACKSLASH then 2 else 1;
      var rest := ScanUnits(c, p + n);
      units := [c[p..p + n]] + rest;
      assert c[p..e] == c[p..p + n] + c[p + n..e];
    }
  }

  lemma {:induction false} EscapesMove(c: bytes, p: nat, t: bytes, q: nat, w: seq<nat>)
    requires At(c, p, t) && q + 6 * |w| <= |t|
    ensures EscapesAt(t, q, w) <==> EscapesAt(c, p + q, w)
    decreases |w|
  {
    hide IsDigit;
    if w != [] {
      assert c[p + q] == t[q] && c[p + (q + 1)] == t[q + 1] && c[p + (q + 2)] == t[q + 2];
      assert c[p + (q + 3)] == t[q + 3] && c[p + (q + 4)] == t[q + 4] && c[p + (q + 5)] == t[q + 5];
      EscapesMove(c, p, t, q + 6, w[1..]);
    }
  }

  lemma DigitsMove(c: bytes, p: nat, t: bytes)
    requires At(c, p, t) && |t| == 6
    ensures HexDigits(t, 2) <==> HexDigits(c, p + 2)
  {
    hide IsDigit;
    assert c[p + 2] == t[2] && c[p + 3] == t[3] && c[p + 4] == t[4] && c[p + 5] == t[5];
    if w :| Spells(t, 2, w) {
      assert Spells(c, p + 2, w);
    }
    var q := p + 2;
    if w :| Spells(c, q, w) {
      assert Spells(t, 2, w);
    }
  }

  lemma SpellsOutDecodes(c: bytes, p: nat, end: nat, t: bytes, value: bytes)
    requires p <= end <= |c| && At(c, p, t) && p + |t| <= end && SpellsOut(t, value)
    ensures Literal(c, p, end) == Some(Decoded(value, |t|)) && HexDigits(c, p + 2)
  {
    hide Literal, Utf8, Spells, FromUtf8;
    var u := FromUtf8(value).value;
    Utf8Encodes(value);
    EscapesMove(c, p, t, 0, Utf16(u));
    assert Spells(c, p + 2, Utf16(u)[0]);
    EscapesDecode(c, p, end, u);
  }

  lemma DecodesAsSpelled(c: bytes, p: nat, end: nat) returns (k: nat, value: bytes)
    requires p + 6 <= end <= |c| && c[p] == BACKSLASH && c[p + 1] == 'u' as int && HexDigits(c, p + 2)
    requires Literal(c, p, end).Some?
    ensures Literal(c, p, end) == Some(Decoded(value, k)) && p + k <= end && SpellsOut(c[p..p + k], value)
  {
    hide Literal, Utf8, Spells, FromUtf8, HexDigits;
    EscapesAccepted(c, p, end);
    var u :| Spelled(c, p, end, u);
    EscapesDecode(c, p, end, u);
    k, value := 6 * |Utf16(u)|, Utf8(u);
    Utf8Decodes(u);
    AtSlice(c, p, p + k);
    EscapesMove(c, p, c[p..p + k], 0, Utf16(u));
  }

  /** What the decoder makes of an escape with a u, by its first six or twelve bytes. */
  lemma LiteralMeans(c: bytes, p: nat, end: nat, k: nat, value: bytes)
    requires p + 2 <= end <= |c| && c[p] == BACKSLASH && c[p + 1] == 'u' as int && 6 <= k
    ensures Literal(c, p, end) == Some(Decoded(value, k)) <==> p + k <= end && Means(c[p..p + k], value)
  {
    hide Utf8, FromUtf8, SpellsOut, HexDigits, Hex4;
    if p + 6 <= end {
      AtSlice(c, p, p + 6);
      DigitsMove(c, p, c[p..p + 6]);
      if !HexDigits(c, p + 2) {
        BadDigitsReadAsZero(c, p, end);
      } else if Literal(c, p, end).Some? {
        var n, v := DecodesAsSpelled(c, p, end);
      }
      if p + k <= end && SpellsOut(c[p..p + k], value) {
        AtSlice(c, p, p + k);
        SpellsOutDecodes(c, p, end, c[p..p + k], value);
      }
    }
  }

  lemma PieceStarts(t: bytes, value: bytes)
    requires t != []
    ensures SpellsOut(t, value) ==> |t| in {6, 12} && t[0] == BACKSLASH && t[1] == 'u' as int
  {
    hide FromUtf8, Spells;
  }

  /** Where the pieces `texts` from `p` end: at the end of the contents, or with an escaped quote one byte behind it. */
  predicate Reach(c: bytes, p: nat, end: nat, texts: seq<bytes>) {
    var z := p + |Concat(texts)|;
    && z <= |c| && c[p..z] == Concat(texts)
    && (z == end || (z == end + 1 && texts != [] && |texts[|texts| - 1]| == 2))
  }

  /** One step of the decoding pass takes exactly one piece. */
  lemma OneMeans(c: bytes, p: nat, end: nat, k: nat, value: bytes)
    requires p < end < |c|
    ensures DecodeOne(c, p, end) == Some(Decoded(value, k))
      <==> 0 < k && p + k <= |c| && Means(c[p..p + k], value) && (k > 2 ==> p + k <= end)
  {
    hide Literal, SpellsOut, HexDigits, StandsFor;
    if 0 < k && p + k <= |c| {
      PieceStarts(c[p..p + k], value);
    }
    if c[p] != BACKSLASH {
      assert c[p..p + 1] == [c[p]];
    } else if c[p + 1] == 'u' as int {
      if |value| == 1 {
        LettersStand(c[p + 1], value[0]);
      }
      if p + 2 <= end && 6 <= k {
        LiteralMeans(c, p, end, k, value);
      }
    } else {
      if |value| == 1 {
        LettersStand(c[p + 1], value[0]);
        assert value == [value[0]];
      }
    }
  }

  lemma LettersStand(letter: byte, b: byte)
    ensures StandsFor(letter, b) <==> SimpleEscape(letter) == Some(b)
  {
  }

  ghost predicate AllFull(texts: seq<bytes>) {
    forall i :: 0 <= i < |texts| ==> texts[i] != []
  }

  /** Taking the first piece. */
  lemma ReachStep(c: bytes, p: nat, end: nat, texts: seq<bytes>)
    requires p < end < |c| && texts != [] && AllFull(texts) && Reach(c, p, end, texts)
    ensures var k := |texts[0]|;
      && 0 < k && p + k <= |c| && c[p..p + k] == texts[0]
      && (if p + k <= end then Reach(c, p + k, end, texts[1..]) else k == 2 && p + k == end + 1 && texts[1..] == [])
  {
    var k, z := |texts[0]|, p + |Concat(texts)|;
    assert c[p..z] == texts[0] + Concat(texts[1..]);
    assert c[p..z][..k] == c[p..p + k] && c[p..z][k..] == c[p + k..z];
    if texts[1..] != [] {
      assert texts[1..][|texts| - 2] == texts[|texts| - 1] != [];
      FullIsLonger(texts[1..]);
    }
  }

  lemma {:induction false} FullIsLonger(texts: seq<bytes>)
    requires texts != [] && AllFull(texts)
    ensures |Concat(texts)| >= |texts[|texts| - 1]| >= 1
  {
    if |texts| > 1 {
      FullIsLonger(texts[1..]);
    }
  }

  /** Putting a piece in front. */
  lemma ReachMore(c: bytes, p: nat, end: nat, k: nat, texts: seq<bytes>)
    requires p < end < |c| && 0 < k && p + k <= |c|
    requires if p + k <= end then Reach(c, p + k, end, texts) else k == 2 && p + k == end + 1 && texts == []
    ensures Reach(c, p, end, [c[p..p + k]] + texts)
  {
    var all := [c[p..p + k]] + texts;
    assert all[1..] == texts && Concat(all) == c[p..p + k] + Concat(texts);
    var z := p + |Concat(all)|;
    assert c[p..z] == c[p..p + k] + c[p + k..z];
  }

  lemma {:induction false} PiecesDecode(c: bytes, p: nat, end: nat, texts: seq<bytes>, values: seq<bytes>)
    requires p <= end < |c| && AllMean(texts, values) && Reach(c, p, end, texts)
    ensures DecodeAll(c, p, end) == Some(Concat(values))
    decreases |texts|
  {
    hide Means, DecodeOne, Reach;
    MeansFull(texts, values);
    if texts == [] || p == end {
      NothingLeft(c, p, end, texts);
    } else {
      ReachStep(c, p, end, texts);
      var k := |texts[0]|;
      OneMeans(c, p, end, k, values[0]);
      if p + k <= end {
        PiecesDecode(c, p + k, end, texts[1..], values[1..]);
      }
    }
  }

  lemma NothingLeft(c: bytes, p: nat, end: nat, texts: seq<bytes>)
    requires p <= end < |c| && AllFull(texts) && Reach(c, p, end, texts) && (texts == [] || p == end)
    ensures p == end && texts == []
  {
    if texts != [] {
      FullIsLonger(texts);
    }
  }

  lemma MeansFull(texts: seq<bytes>, values: seq<bytes>)
    requires AllMean(texts, values)
    ensures AllFull(texts)
  {
  }

  lemma {:induction false} DecodePieces(c: bytes, p: nat, end: nat) returns (texts: seq<bytes>, values: seq<bytes>)
    requires p <= end < |c| && DecodeAll(c, p, end).Some?
    ensures AllMean(texts, values) && Reach(c, p, end, texts) && DecodeAll(c, p, end) == Some(Concat(values))
    decreases end - p
  {
    hide Means, DecodeOne, Reach;
    if p == end {
      texts, values := [], [];
      NoPieces(c, p);
    } else {
      var d := DecodeOne(c, p, end).value;
      var k := d.taken;
      OneMeans(c, p, end, k, d.out);
      texts, values := [], [];
      if p + k <= end {
        texts, values := DecodePieces(c, p + k, end);
      }
      ReachMore(c, p, end, k, texts);
      texts, values := [c[p..p + k]] + texts, [d.out] + values;
      assert values[1..] + [] == values[1..];
    }
  }

  lemma NoPieces(c: bytes, p: nat)
    requires p < |c|
    ensures Reach(c, p, p, [])
  {
  }

  /** parse_string accepts exactly the literals, and reads each as what it stands for. */
  lemma StringsExactly(c: bytes, o: nat, s: bytes, e: nat)
    ensures ParseString(c, o) == Ok(s, e) <==> o < e <= |c| && IsLiteral(c[o..e], s)
  {
    hide Means, Reach, DecodeAll, ScanEnd;
    if ParseString(c, o) == Ok(s, e) {
      StringIsLiteral(c, o);
    }
    if o < e <= |c| && IsLiteral(c[o..e], s) {
      LiteralReads(c, o, s, e);
    }
  }

  lemma Between(c: bytes, o: nat, e: nat)
    requires o + 2 <= e <= |c|
    ensures var t := c[o..e]; t[1..|t| - 1] == c[o + 1..e - 1] && t[1..] == c[o + 1..e]
    ensures c[o] == c[o..e][0] && c[e - 1] == c[o..e][e - o - 1]
  {
    var t := c[o..e];
    var m := |t| - 1;
    assert t[..m] == c[o..e - 1];
    assert t[1..m] == t[..m][1..] == c[o + 1..e - 1];
  }

  lemma StringIsLiteral(c: bytes, o: nat)
    requires ParseString(c, o).Ok?
    ensures IsLiteral(c[o..ParseString(c, o).offset], ParseString(c, o).value)
  {
    hide Means, DecodeAll, ScanEnd;
    var e := ParseString(c, o).offset;
    var t := c[o..e];
    var units := ScanUnits(c, o + 1);
    var texts, values := DecodePieces(c, o + 1, e - 1);
    Between(c, o, e);
    assert Covers(texts, t);
  }

  lemma LiteralReads(c: bytes, o: nat, s: bytes, e: nat)
    requires o < e <= |c| && IsLiteral(c[o..e], s)
    ensures ParseString(c, o) == Ok(s, e)
  {
    hide Means, DecodeAll, ScanEnd, Concat;
    var t := c[o..e];
    Between(c, o, e);
    var units :| AreUnits(units) && Concat(units) == t[1..|t| - 1];
    var texts, values :| AllMean(texts, values) && Concat(values) == s && Covers(texts, t);
    UnitsScan(c, o + 1, e - 1, units);
    assert Reach(c, o + 1, e - 1, texts);
    PiecesDecode(c, o + 1, e - 1, texts, values);
  }
}
