/** The \u escapes of a JSON string against RFC 2781 (UTF-16) and RFC 3629 (UTF-8). */
module JsonUnicode {
  import opened JsonText

  predicate IsScalar(u: nat) {
    u < 0xD800 || 0xE000 <= u <= 0x10FFFF
  }

  predicate IsTail(b: byte) {
    0x80 <= b <= 0xBF
  }

  function Bits(b: byte, mark: byte): int {
    b - mark
  }

  /** The code point of one well-formed byte sequence, after the syntax in section 4 of RFC 3629. */
  function FromUtf8(r: bytes): Option<int> {
    if |r| == 1 && r[0] <= 0x7F then Some(r[0])
    else if |r| == 2 && 0xC2 <= r[0] <= 0xDF && IsTail(r[1]) then Some(Bits(r[0], 0xC0) * 64 + Bits(r[1], 0x80))
    else if |r| == 3 && 0xE0 <= r[0] <= 0xEF && IsTail(r[1]) && IsTail(r[2])
            && (r[0] == 0xE0 ==> r[1] >= 0xA0) && (r[0] == 0xED ==> r[1] <= 0x9F)
    then Some(Bits(r[0], 0xE0) * 4096 + Bits(r[1], 0x80) * 64 + Bits(r[2], 0x80))
    else if |r| == 4 && 0xF0 <= r[0] <= 0xF4 && IsTail(r[1]) && IsTail(r[2]) && IsTail(r[3])
            && (r[0] == 0xF0 ==> r[1] >= 0x90) && (r[0] == 0xF4 ==> r[1] <= 0x8F)
    then Some(Bits(r[0], 0xF0) * 262144 + Bits(r[1], 0x80) * 4096 + Bits(r[2], 0x80) * 64 + Bits(r[3], 0x80))
    else None
  }

  /** A number is the four digits to the base 64 that the bytes carry, and no others. */
  lemma Base64(u: nat, a: nat, b: nat, c: nat, d: nat)
    requires b < 64 && c < 64 && d < 64
    ensures u == a * 262144 + b * 4096 + c * 64 + d
      <==> a == u / 262144 && b == u / 4096 % 64 && c == u / 64 % 64 && d == u % 64
  {
    assert u / 64 / 64 == u / 4096 && u / 4096 / 64 == u / 262144;
    if u == a * 262144 + b * 4096 + c * 64 + d {
      assert u / 64 == a * 4096 + b * 64 + c;
      assert u / 4096 == a * 64 + b;
    }
  }

  lemma TwoBytes(u: nat)
    requires 0x80 <= u < 0x800
    ensures FromUtf8(Utf8(u)) == Some(u)
  {
    assert u / 64 / 64 == 0 && u / 64 < 32;
  }

  lemma ThreeBytes(u: nat)
    requires 0x800 <= u < 0x10000 && IsScalar(u)
    ensures FromUtf8(Utf8(u)) == Some(u)
  {
    assert u / 4096 % 64 == u / 4096 && u / 262144 == 0;
    Base64(u, u / 262144, u / 4096 % 64, u / 64 % 64, u % 64);
  }

  lemma FourBytes(u: nat)
    requires 0x10000 <= u <= 0x10FFFF
    ensures FromUtf8(Utf8(u)) == Some(u)
  {
    Base64(u, u / 262144, u / 4096 % 64, u / 64 % 64, u % 64);
  }

  /** What is written for a code point is well formed and stands for it. */
  lemma Utf8Decodes(u: nat)
    requires IsScalar(u)
    ensures FromUtf8(Utf8(u)) == Some(u)
  {
    if u >= 0x10000 {
      FourBytes(u);
    } else if u >= 0x800 {
      ThreeBytes(u);
    } else if u >= 0x80 {
      TwoBytes(u);
    }
  }

  /** A well-formed sequence is what is written for its code point. */
  lemma Utf8Encodes(r: bytes)
    requires FromUtf8(r).Some?
    ensures var u := FromUtf8(r).value; 0 <= u && IsScalar(u) && r == Utf8(u)
  {
    var u := FromUtf8(r).value;
    if |r| == 2 {
      Base64(u, 0, 0, Bits(r[0], 0xC0), Bits(r[1], 0x80));
    } else if |r| == 3 {
      Base64(u, 0, Bits(r[0], 0xE0), Bits(r[1], 0x80), Bits(r[2], 0x80));
    } else if |r| == 4 {
      Base64(u, Bits(r[0], 0xF0), Bits(r[1], 0x80), Bits(r[2], 0x80), Bits(r[3], 0x80));
    }
  }

  /** The bytes written for a code point are its one well-formed encoding, hence the shortest. */
  lemma Utf8IsTheEncoding(u: nat, r: bytes)
    requires IsScalar(u)
    ensures FromUtf8(r) == Some(u) <==> r == Utf8(u)
  {
    hide Utf8, FromUtf8;
    Utf8Decodes(u);
    if FromUtf8(r) == Some(u) {
      Utf8Encodes(r);
    }
  }

  /** The 16-bit units of a code point, section 2.1 of RFC 2781. */
  function Utf16(u: nat): (w: seq<nat>)
    requires IsScalar(u)
    ensures 1 <= |w| <= 2
  {
    if u < 0x10000 then [u] else [0xD800 + (u - 0x10000) / 0x400, 0xDC00 + (u - 0x10000) % 0x400]
  }

  const LOWER: string := "0123456789abcdef"
  const UPPER: string := "0123456789ABCDEF"

  /** A hexadecimal digit of the value `d`, in either case. */
  predicate IsDigit(b: byte, d: nat) {
    d < 16 && b in {LOWER[d] as int, UPPER[d] as int}
  }

  /** A byte has the value of the digit it is, and none if it is no digit. */
  lemma HexValueIs(b: byte, d: nat)
    ensures HexValue(b) == Some(d) <==> IsDigit(b, d)
  {
  }

  /** Four hexadecimal digits, in either case, that spell `w` stand at `p`. */
  predicate Spells(c: bytes, p: nat, w: nat) {
    && p + 4 <= |c| && w < 0x10000
    && IsDigit(c[p], w / 4096) && IsDigit(c[p + 1], w / 256 % 16)
    && IsDigit(c[p + 2], w / 16 % 16) && IsDigit(c[p + 3], w % 16)
  }

  /** Escapes that spell the units `w`, one after the other, stand at `p`. */
  predicate EscapesAt(c: bytes, p: nat, w: seq<nat>)
    decreases |w|
  {
    w == [] || (p + 6 <= |c| && c[p] == BACKSLASH && c[p + 1] == 'u' as int && Spells(c, p + 2, w[0])
      && EscapesAt(c, p + 6, w[1..]))
  }

  /** Four hexadecimal digits, in either case, stand at `p`. */
  ghost predicate HexDigits(c: bytes, p: nat) {
    exists w :: Spells(c, p, w)
  }

  predicate HexValues(c: bytes, p: nat) {
    && p + 4 <= |c| && HexValue(c[p]).Some? && HexValue(c[p + 1]).Some?
    && HexValue(c[p + 2]).Some? && HexValue(c[p + 3]).Some?
  }

  lemma SpellsValues(c: bytes, p: nat, w: nat)
    requires p + 4 <= |c|
    ensures Spells(c, p, w) <==>
      && w < 0x10000 && HexValue(c[p]) == Some(w / 4096) && HexValue(c[p + 1]) == Some(w / 256 % 16)
      && HexValue(c[p + 2]) == Some(w / 16 % 16) && HexValue(c[p + 3]) == Some(w % 16)
  {
    hide HexValue, IsDigit;
    HexValueIs(c[p], w / 4096);
    HexValueIs(c[p + 1], w / 256 % 16);
    HexValueIs(c[p + 2], w / 16 % 16);
    HexValueIs(c[p + 3], w % 16);
  }

  lemma Base16(w: nat, a: nat, b: nat, c: nat, d: nat)
    requires a < 16 && b < 16 && c < 16 && d < 16
    ensures w == ((a * 16 + b) * 16 + c) * 16 + d
      <==> a == w / 4096 && b == w / 256 % 16 && c == w / 16 % 16 && d == w % 16
  {
    assert w / 16 / 16 == w / 256 && w / 256 / 16 == w / 4096;
    if w == ((a * 16 + b) * 16 + c) * 16 + d {
      assert w / 16 == (a * 16 + b) * 16 + c;
      assert w / 256 == a * 16 + b;
    }
  }

  lemma HexStep(c: bytes, p: nat, n: nat)
    requires p + 4 <= |c| && n < 4
    ensures var h, d, next := HexPrefix(c, p, n), HexValue(c[p + n]), HexPrefix(c, p, n + 1);
      && (next.Some? <==> h.Some? && d.Some?) && (next.Some? ==> next.value == h.value * 16 + d.value)
  {
  }

  /** parse_hex4 reads exactly the number that is spelled, and 0 where there are not four digits. */
  lemma HexReads(c: bytes, p: nat, w: nat)
    requires p + 4 <= |c|
    ensures HexDigits(c, p) ==> (Spells(c, p, w) <==> w == Hex4(c, p))
    ensures !HexDigits(c, p) ==> Hex4(c, p) == 0 && !Spells(c, p, w)
  {
    hide HexValue, Hex4, Spells;
    Hex4Spells(c, p, w);
    Hex4Spells(c, p, Hex4(c, p));
    if v :| Spells(c, p, v) {
      Hex4Spells(c, p, v);
    }
  }

  lemma Hex4Spells(c: bytes, p: nat, w: nat)
    requires p + 4 <= |c|
    ensures if HexValues(c, p) then Spells(c, p, w) <==> w == Hex4(c, p) else Hex4(c, p) == 0 && !Spells(c, p, w)
  {
    hide HexValue, Spells;
    HexStep(c, p, 0);
    HexStep(c, p, 1);
    HexStep(c, p, 2);
    HexStep(c, p, 3);
    SpellsValues(c, p, w);
    if HexValues(c, p) {
      Base16(w, HexValue(c[p]).value, HexValue(c[p + 1]).value, HexValue(c[p + 2]).value, HexValue(c[p + 3]).value);
    }
  }

  /** The escapes of a code point decode to its UTF-8 encoding. */
  lemma EscapesDecode(c: bytes, p: nat, end: nat, u: nat)
    requires IsScalar(u) && EscapesAt(c, p, Utf16(u)) && p + 6 * |Utf16(u)| <= end <= |c|
    ensures Literal(c, p, end) == Some(Decoded(Utf8(u), 6 * |Utf16(u)|))
  {
    hide Utf8, Hex4, Spells;
    var w := Utf16(u);
    HexReads(c, p + 2, w[0]);
    if |w| == 2 {
      assert w[1..][0] == w[1];
      HexReads(c, p + 8, w[1]);
    }
  }

  /** The escapes of the code point `u` stand at `p`, before `end`. */
  predicate Spelled(c: bytes, p: nat, end: nat, u: nat) {
    IsScalar(u) && EscapesAt(c, p, Utf16(u)) && p + 6 * |Utf16(u)| <= end
  }

  /**
   * A \u escape with four hexadecimal digits is accepted exactly when it spells a code point, alone or with an escape
   * right after it that has four digits too; a lone surrogate is refused.
   */
  lemma EscapesAccepted(c: bytes, p: nat, end: nat)
    requires p + 6 <= end <= |c| && c[p] == BACKSLASH && c[p + 1] == 'u' as int && HexDigits(c, p + 2)
    ensures Literal(c, p, end).Some? <==> exists u :: Spelled(c, p, end, u)
  {
    hide Utf8, Hex4, Spells, HexDigits;
    var first := Hex4(c, p + 2);
    HexReads(c, p + 2, first);
    if Literal(c, p, end).Some? {
      if Literal(c, p, end).value.taken == 6 {
        assert Utf16(first) == [first] && [first][1..] == [] && EscapesAt(c, p + 6, []);
        assert EscapesAt(c, p, [first]);
        assert Spelled(c, p, end, first);
      } else {
        var second := Hex4(c, p + 8);
        HexReads(c, p + 8, second);
        var u := 0x10000 + (first - 0xD800) * 0x400 + (second - 0xDC00);
        assert Utf16(u) == [first, second] && Utf16(u)[1..] == [second] && [second][1..] == [];
        assert EscapesAt(c, p + 6, [second]);
        assert Spelled(c, p, end, u);
      }
    }
    if u :| Spelled(c, p, end, u) {
      EscapesDecode(c, p, end, u);
    }
  }

  /** Four bytes that are not all hexadecimal digits are not refused: the escape reads as code point 0. */
  lemma BadDigitsReadAsZero(c: bytes, p: nat, end: nat)
    requires p + 6 <= end <= |c| && !HexDigits(c, p + 2)
    ensures Literal(c, p, end) == Some(Decoded([0], 6))
  {
    HexReads(c, p + 2, 0);
  }
}
