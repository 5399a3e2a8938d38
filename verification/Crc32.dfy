/** The checksum of crc32.c against a shift register that takes one bit at a time. */
module Crc32 {

  const POLYNOMIAL: bv32 := 0xEDB88320
  const TABLE_LENGTH: nat := 256

  // ---- CRC-32, one bit at a time ----

  function Xor(x: bv32, y: bv32): bv32 {
    x ^ y
  }

  function Half(x: bv32): bv32 {
    x >> 1
  }

  predicate Odd(x: bv32) {
    x & 1 != 0
  }

  function Low(bit: bool): bv32 {
    if bit then 1 else 0
  }

  /** One shift of the reflected register. */
  function Shift(r: bv32): bv32 {
    if Odd(r) then Xor(Half(r), POLYNOMIAL) else Half(r)
  }

  /** The register after the message `bits`. */
  function Serial(r: bv32, bits: seq<bool>): bv32
    decreases |bits|
  {
    if bits == [] then r else Serial(Shift(Xor(r, Low(bits[0]))), bits[1..])
  }

  /** The `n` low bits of a word, the least significant one first. */
  function LowBits(x: bv32, n: nat): (bits: seq<bool>)
    ensures |bits| == n
    decreases n
  {
    if n == 0 then [] else [Odd(x)] + LowBits(Half(x), n - 1)
  }

  function Bits(data: seq<bv8>): (bits: seq<bool>)
    ensures |bits| == 8 * |data|
  {
    if data == [] then [] else LowBits(data[0] as bv32, 8) + Bits(data[1..])
  }

  /** CRC-32 as in section 8 of RFC 1952: starts from all ones and ends with the complement. */
  function Checksum(data: seq<bv8>): bv32 {
    !Serial(0xFFFFFFFF, Bits(data))
  }

  lemma {:induction false} SerialConcat(r: bv32, s: seq<bool>, t: seq<bool>)
    ensures Serial(r, s + t) == Serial(Serial(r, s), t)
    decreases |s|
  {
    hide Shift, Low, Xor;
    if s == [] {
      assert s + t == t;
    } else {
      assert (s + t)[1..] == s[1..] + t;
      SerialConcat(Shift(Xor(r, Low(s[0]))), s[1..], t);
    }
  }

  lemma {:induction false} BitsConcat(s: seq<bv8>, t: seq<bv8>)
    ensures Bits(s + t) == Bits(s) + Bits(t)
  {
    hide LowBits;
    if s == [] {
      assert s + t == t;
    } else {
      assert (s + t)[1..] == s[1..] + t;
      BitsConcat(s[1..], t);
    }
  }

  // ---- The table ----

  /** `n` shifts with no message bits. */
  function Shifts(r: bv32, n: nat): bv32
    decreases n
  {
    if n == 0 then r else Shifts(Shift(r), n - 1)
  }

  predicate IsTable(t: seq<bv32>) {
    |t| == TABLE_LENGTH && forall i :: 0 <= i < TABLE_LENGTH ==> t[i] == Shifts(i as bv32, 8)
  }

  lemma Associative(x: bv32, y: bv32, z: bv32)
    ensures (x ^ y) ^ z == x ^ (y ^ z)
  {
  }

  lemma XorLaws(x: bv32, y: bv32, z: bv32)
    ensures Xor(x, y) == Xor(y, x) && Xor(x, 0) == x && Xor(0, x) == x && Xor(x, x) == 0
    ensures Xor(Xor(x, y), z) == Xor(x, Xor(y, z))
  {
    Associative(x, y, z);
  }

  lemma HalfXor(x: bv32, y: bv32)
    ensures Half(Xor(x, y)) == Xor(Half(x), Half(y)) && (Odd(Xor(x, y)) <==> Odd(x) != Odd(y))
  {
  }

  /** What is added twice cancels. */
  lemma Cancel(x: bv32, y: bv32, p: bv32)
    ensures Xor(Xor(x, p), Xor(y, p)) == Xor(x, y) && Xor(Xor(x, p), Xor(p, y)) == Xor(x, y)
  {
    hide Xor;
    XorLaws(x, p, Xor(y, p));
    XorLaws(p, y, p);
    XorLaws(p, p, y);
    XorLaws(y, p, p);
    XorLaws(y, p, y);
  }

  /** The register step is linear. */
  lemma ShiftXor(r: bv32, s: bv32)
    ensures Shift(Xor(r, s)) == Xor(Shift(r), Shift(s))
  {
    hide Xor, Half, Odd;
    HalfXor(r, s);
    XorLaws(Half(r), Half(s), POLYNOMIAL);
    XorLaws(Half(r), POLYNOMIAL, Half(s));
    XorLaws(Half(s), POLYNOMIAL, 0);
    Cancel(Half(r), Half(s), POLYNOMIAL);
  }

  lemma {:induction false} ShiftsXor(r: bv32, s: bv32, n: nat)
    ensures Shifts(Xor(r, s), n) == Xor(Shifts(r, n), Shifts(s, n))
    decreases n
  {
    hide Shift, Xor;
    if n > 0 {
      ShiftXor(r, s);
      ShiftsXor(Shift(r), Shift(s), n - 1);
    }
  }

  /** Bits above the ones that are shifted out only move. */
  lemma HighShifts(r: bv32)
    requires r & 0xFF == 0
    ensures Shifts(r, 8) == r >> 8
  {
    var r1, r2, r3 := r >> 1, r >> 2, r >> 3;
    var r4, r5, r6, r7 := r >> 4, r >> 5, r >> 6, r >> 7;
    assert Shift(r) == r1 && Shift(r1) == r2 && Shift(r2) == r3 && Shift(r3) == r4;
    assert Shift(r4) == r5 && Shift(r5) == r6 && Shift(r6) == r7 && Shift(r7) == r >> 8;
    assert Shifts(r4, 4) == Shifts(r5, 3) == Shifts(r6, 2) == Shifts(r7, 1) == r >> 8;
    assert Shifts(r, 8) == Shifts(r1, 7) == Shifts(r2, 6) == Shifts(r3, 5) == Shifts(r4, 4);
  }

  lemma LowestBit(x: bv32)
    ensures var high := Xor(x, Low(Odd(x))); !Odd(high) && Half(high) == Half(x)
  {
  }

  /** Adding the lowest bit before a shift and the others after it is adding them all before it. */
  lemma AddedEarly(r: bv32, x: bv32)
    ensures Xor(Shift(Xor(r, Low(Odd(x)))), Half(x)) == Shift(Xor(r, x))
  {
    var low := Low(Odd(x));
    var high := Xor(x, low);
    assert Shift(high) == Half(x) by {
      LowestBit(x);
    }
    assert Xor(Xor(r, low), high) == Xor(r, x) by {
      hide Shift, Xor, Low;
      Cancel(r, x, low);
    }
    assert Xor(Shift(Xor(r, low)), Half(x)) == Shift(Xor(r, x)) by {
      hide Shift, Xor, Half;
      ShiftXor(Xor(r, low), high);
    }
  }

  /** The word has no bits but the `n` low ones. */
  predicate Fits(x: bv32, n: nat)
    decreases n
  {
    if n == 0 then x == 0 else Fits(Half(x), n - 1)
  }

  /** Taking `n` message bits one at a time is adding them all and then shifting. */
  lemma {:induction false} Absorb(r: bv32, x: bv32, n: nat)
    requires Fits(x, n)
    ensures Serial(r, LowBits(x, n)) == Shifts(Xor(r, x), n)
    decreases n
  {
    hide Shift, Half, Odd, Low;
    if n == 0 {
      XorLaws(r, x, x);
    } else {
      hide Xor;
      var s := Shift(Xor(r, Low(Odd(x))));
      assert LowBits(x, n)[1..] == LowBits(Half(x), n - 1);
      Absorb(s, Half(x), n - 1);
      AddedEarly(r, x);
    }
  }

  lemma ByteFits(x: bv32)
    requires x <= 0xFF
    ensures Fits(x, 8)
  {
    var x1, x2, x3, x4 := x >> 1, x >> 2, x >> 3, x >> 4;
    var x5, x6, x7 := x >> 5, x >> 6, x >> 7;
    assert Half(x) == x1 && Half(x1) == x2 && Half(x2) == x3 && Half(x3) == x4;
    assert Half(x4) == x5 && Half(x5) == x6 && Half(x6) == x7 && Half(x7) == 0;
    assert Fits(x7, 1) && Fits(x6, 2) && Fits(x5, 3) && Fits(x4, 4);
    assert Fits(x3, 5) && Fits(x2, 6) && Fits(x1, 7);
  }

  lemma SmallIndex(x: bv32)
    requires x <= 0xFF
    ensures x as int < TABLE_LENGTH
  {
  }

  lemma BackAndForth(x: bv32)
    ensures (x as int) as bv32 == x
  {
  }

  lemma LowByteIsSmall(x: bv32)
    ensures x & 0xFF <= 0xFF
  {
  }

  function AsIndex(y: bv32): (i: nat)
    requires y <= 0xFF
    ensures i < TABLE_LENGTH && i as bv32 == y
  {
    SmallIndex(y);
    BackAndForth(y);
    y as int
  }

  /** The low byte of a word as an index into the table. */
  function Index(x: bv32): (i: nat)
    ensures i < TABLE_LENGTH && i as bv32 == x & 0xFF
  {
    LowByteIsSmall(x);
    AsIndex(x & 0xFF)
  }

  lemma SplitLowByte(x: bv32)
    ensures var high := x & 0xFFFFFF00; x == Xor(x & 0xFF, high) && high >> 8 == x >> 8 && high & 0xFF == 0
  {
  }

  /** Eight shifts are one look-up. */
  lemma ShiftsSplit(x: bv32)
    ensures Shifts(x, 8) == Xor(x >> 8, Shifts(x & 0xFF, 8))
  {
    hide Shifts, Xor;
    var low, high := x & 0xFF, x & 0xFFFFFF00;
    SplitLowByte(x);
    HighShifts(high);
    ShiftsXor(low, high, 8);
    XorLaws(Shifts(low, 8), x >> 8, 0);
  }

  lemma ByteIsSmall(r: bv32, b: bv8)
    ensures b as bv32 <= 0xFF && Xor(r, b as bv32) >> 8 == r >> 8
  {
  }

  lemma EightBits(r: bv32, b: bv8)
    ensures Serial(r, LowBits(b as bv32, 8)) == Xor(r >> 8, Shifts(Xor(r, b as bv32) & 0xFF, 8))
  {
    hide Xor, Shifts, Serial, LowBits, Fits;
    ByteIsSmall(r, b);
    ByteFits(b as bv32);
    Absorb(r, b as bv32, 8);
    ShiftsSplit(Xor(r, b as bv32));
  }

  /** One look-up does the work of eight bits. */
  lemma TableStep(t: seq<bv32>, r: bv32, b: bv8)
    requires IsTable(t)
    ensures Xor(r >> 8, t[Index(Xor(r, b as bv32))]) == Serial(r, LowBits(b as bv32, 8))
  {
    hide Xor, Shifts, Serial, LowBits, Index;
    EightBits(r, b);
    var i := Index(Xor(r, b as bv32));
    assert t[i] == Shifts(i as bv32, 8);
  }

  lemma ShiftIs(r: bv32)
    ensures Shift(r) == if r & 1 != 0 then (r >> 1) ^ POLYNOMIAL else r >> 1
  {
  }

  /** init_crc32_table */
  method InitTable() returns (table: array<bv32>)
    ensures fresh(table) && IsTable(table[..])
  {
    hide Shift;
    table := new bv32[TABLE_LENGTH];
    for i := 0 to TABLE_LENGTH
      invariant forall k :: 0 <= k < i ==> table[k] == Shifts(k as bv32, 8)
    {
      var crc := i as bv32;
      for j := 0 to 8
        invariant forall k :: 0 <= k < i ==> table[k] == Shifts(k as bv32, 8)
        invariant Shifts(crc, 8 - j) == Shifts(i as bv32, 8)
      {
        ghost var before := crc;
        if crc & 1 != 0 {
          crc := (crc >> 1) ^ POLYNOMIAL;
        } else {
          crc := crc >> 1;
        }
        ShiftIs(before);
      }
      assert Shifts(crc, 0) == crc;
      table[i] := crc;
    }
  }

  /** calc_crc32 */
  method CalcCrc32(table: array<bv32>, data: seq<bv8>) returns (crc: bv32)
    requires IsTable(table[..])
    ensures crc == Checksum(data)
  {
    hide LowBits, Serial, Index, Xor;
    crc := 0xFFFFFFFF;
    NoBits(crc);
    for i := 0 to |data|
      invariant crc == Serial(0xFFFFFFFF, Bits(data[..i]))
    {
      NextByte(data, i);
      TableStep(table[..], crc, data[i]);
      crc := Xor(crc >> 8, table[Index(Xor(crc, data[i] as bv32))]);
    }
    assert data[..|data|] == data;
    crc := !crc;
  }

  lemma NoBits(r: bv32)
    ensures Serial(r, Bits([])) == r
  {
  }

  lemma NextByte(data: seq<bv8>, i: nat)
    requires i < |data|
    ensures Serial(0xFFFFFFFF, Bits(data[..i + 1]))
      == Serial(Serial(0xFFFFFFFF, Bits(data[..i])), LowBits(data[i] as bv32, 8))
  {
    hide Serial, LowBits;
    assert data[..i + 1] == data[..i] + [data[i]];
    BitsConcat(data[..i], [data[i]]);
    assert Bits([data[i]]) == LowBits(data[i] as bv32, 8);
    SerialConcat(0xFFFFFFFF, Bits(data[..i]), LowBits(data[i] as bv32, 8));
  }

  // ---- Algebra ----

  /** The table is linear: the entry for a sum is the sum of the entries. */
  lemma TableXor(t: seq<bv32>, i: bv32, j: bv32)
    requires IsTable(t) && i <= 0xFF && j <= 0xFF
    ensures t[Index(Xor(i, j))] == Xor(t[Index(i)], t[Index(j)])
  {
    hide Xor, Shifts, Index;
    assert Small(i) == i && Small(j) == j && Small(Xor(i, j)) == Xor(i, j) by {
      SmallXor(i, j);
    }
    assert t[Index(i)] == Shifts(Index(i) as bv32, 8) && t[Index(j)] == Shifts(Index(j) as bv32, 8);
    assert t[Index(Xor(i, j))] == Shifts(Index(Xor(i, j)) as bv32, 8);
    ShiftsXor(i, j, 8);
  }

  function Small(x: bv32): bv32 {
    x & 0xFF
  }

  lemma SmallIs(x: bv32)
    requires x <= 0xFF
    ensures Small(x) == x
  {
  }

  lemma MaskXor(i: bv32, j: bv32)
    ensures (i ^ j) & 0xFF == (i & 0xFF) ^ (j & 0xFF)
  {
  }

  lemma SmallXor(i: bv32, j: bv32)
    requires i <= 0xFF && j <= 0xFF
    ensures Small(i) == i && Small(j) == j && Small(Xor(i, j)) == Xor(i, j)
  {
    SmallIs(i);
    SmallIs(j);
    MaskXor(i, j);
  }

  /** Two messages of one length, added bit by bit. */
  function Sum(s: seq<bool>, t: seq<bool>): (u: seq<bool>)
    requires |s| == |t|
    ensures |u| == |s|
  {
    if s == [] then [] else [s[0] != t[0]] + Sum(s[1..], t[1..])
  }

  lemma LowXor(a: bool, b: bool)
    ensures Low(a != b) == Xor(Low(a), Low(b))
  {
  }

  lemma Regroup(r: bv32, s: bv32, x: bv32, y: bv32)
    ensures Xor(Xor(r, s), Xor(x, y)) == Xor(Xor(r, x), Xor(s, y))
  {
    hide Xor;
    XorLaws(r, s, Xor(x, y));
    XorLaws(s, x, y);
    XorLaws(x, s, y);
    XorLaws(r, x, Xor(s, y));
  }

  /** The register depends linearly on its start and the message together. */
  lemma {:induction false} SerialXor(r: bv32, s: bv32, a: seq<bool>, b: seq<bool>)
    requires |a| == |b|
    ensures Serial(Xor(r, s), Sum(a, b)) == Xor(Serial(r, a), Serial(s, b))
    decreases |a|
  {
    if a != [] {
      hide Xor, Shift, Low;
      var x, y := Low(a[0]), Low(b[0]);
      LowXor(a[0], b[0]);
      Regroup(r, s, x, y);
      ShiftXor(Xor(r, x), Xor(s, y));
      SerialXor(Shift(Xor(r, x)), Shift(Xor(s, y)), a[1..], b[1..]);
    }
  }

  function Xors(a: seq<bv8>, b: seq<bv8>): (c: seq<bv8>)
    requires |a| == |b|
    ensures |c| == |a|
  {
    seq(|a|, i requires 0 <= i < |a| => a[i] ^ b[i])
  }

  function Zeros(n: nat): (z: seq<bv8>)
    ensures |z| == n
  {
    seq(n, _ => 0)
  }

  lemma ByteXor(a: bv8, b: bv8)
    ensures (a ^ b) as bv32 == Xor(a as bv32, b as bv32)
  {
  }

  lemma {:induction false} LowBitsXor(x: bv32, y: bv32, n: nat)
    ensures LowBits(Xor(x, y), n) == Sum(LowBits(x, n), LowBits(y, n))
    decreases n
  {
    hide Xor, Half, Odd;
    if n > 0 {
      HalfXor(x, y);
      LowBitsXor(Half(x), Half(y), n - 1);
    }
  }

  lemma {:induction false} SumConcat(a: seq<bool>, b: seq<bool>, c: seq<bool>, d: seq<bool>)
    requires |a| == |b| && |c| == |d|
    ensures Sum(a + c, b + d) == Sum(a, b) + Sum(c, d)
  {
    if a == [] {
      assert a + c == c && b + d == d;
    } else {
      assert (a + c)[1..] == a[1..] + c && (b + d)[1..] == b[1..] + d;
      SumConcat(a[1..], b[1..], c, d);
    }
  }

  lemma BitsStep(a: seq<bv8>)
    requires a != []
    ensures Bits(a) == LowBits(a[0] as bv32, 8) + Bits(a[1..])
  {
    hide LowBits;
  }

  lemma XorsStep(a: seq<bv8>, b: seq<bv8>)
    requires |a| == |b| > 0
    ensures Xors(a, b)[0] as bv32 == Xor(a[0] as bv32, b[0] as bv32) && Xors(a, b)[1..] == Xors(a[1..], b[1..])
  {
    ByteXor(a[0], b[0]);
  }

  lemma {:induction false} BitsXor(a: seq<bv8>, b: seq<bv8>)
    requires |a| == |b|
    ensures Bits(Xors(a, b)) == Sum(Bits(a), Bits(b))
  {
    if a != [] {
      hide LowBits, Sum, Xor, Xors, Bits;
      XorsStep(a, b);
      BitsStep(a);
      BitsStep(b);
      BitsStep(Xors(a, b));
      LowBitsXor(a[0] as bv32, b[0] as bv32, 8);
      SumConcat(LowBits(a[0] as bv32, 8), LowBits(b[0] as bv32, 8), Bits(a[1..]), Bits(b[1..]));
      BitsXor(a[1..], b[1..]);
    }
  }

  lemma Complement(x: bv32)
    ensures !x == Xor(x, 0xFFFFFFFF)
  {
  }

  lemma {:induction false} NoBitsSet(x: bv32, n: nat)
    requires x == 0
    ensures forall i :: 0 <= i < n ==> !LowBits(x, n)[i]
    decreases n
  {
    if n > 0 {
      NoBitsSet(Half(x), n - 1);
    }
  }

  lemma {:induction false} ZeroBits(n: nat)
    ensures forall i :: 0 <= i < 8 * n ==> !Bits(Zeros(n))[i]
    decreases n
  {
    if n > 0 {
      hide LowBits, Bits;
      BitsStep(Zeros(n));
      assert Zeros(n)[1..] == Zeros(n - 1) && Zeros(n)[0] as bv32 == 0;
      NoBitsSet(0, 8);
      ZeroBits(n - 1);
    }
  }

  lemma {:induction false} SumZeros(s: seq<bool>, t: seq<bool>)
    requires |s| == |t| && forall i :: 0 <= i < |t| ==> !t[i]
    ensures Sum(s, t) == s
  {
    if s != [] {
      SumZeros(s[1..], t[1..]);
    }
  }

  /**
   * The checksum is affine: the one of a sum is the sum of the two checksums
   * and that of as many zero bytes.
   */
  lemma ChecksumXor(a: seq<bv8>, b: seq<bv8>)
    requires |a| == |b|
    ensures Checksum(Xors(a, b)) == Xor(Xor(Checksum(a), Checksum(b)), Checksum(Zeros(|a|)))
  {
    hide Xor, Serial, Bits, Sum, Xors, Zeros;
    var ones: bv32 := 0xFFFFFFFF;
    var z := Zeros(|a|);
    var x, y, o, s :=
      Serial(ones, Bits(a)), Serial(ones, Bits(b)), Serial(ones, Bits(z)), Serial(ones, Bits(Xors(a, b)));
    BitsXor(a, b);
    ZeroBits(|a|);
    SumZeros(Bits(Xors(a, b)), Bits(z));
    SerialXor(ones, ones, Bits(a), Bits(b));
    SerialXor(Xor(ones, ones), ones, Sum(Bits(a), Bits(b)), Bits(z));
    XorLaws(ones, ones, ones);
    XorLaws(ones, 0, 0);
    assert s == Xor(Xor(x, y), o);
    Complement(x);
    Complement(y);
    Complement(o);
    Complement(s);
    Cancel(x, y, ones);
    XorLaws(Xor(x, y), o, ones);
  }

  // ---- Bursts of errors ----

  lemma {:induction false} FitsMore(x: bv32, n: nat)
    requires Fits(x, n)
    ensures Fits(x, n + 1)
    decreases n
  {
    if n > 0 {
      FitsMore(Half(x), n - 1);
    }
  }

  lemma {:induction false} FitsUpTo(x: bv32, n: nat, m: nat)
    requires Fits(x, n) && n <= m
    ensures Fits(x, m)
    decreases m - n
  {
    if n < m {
      FitsMore(x, n);
      FitsUpTo(x, n + 1, m);
    }
  }

  lemma FourHalves(x: bv32)
    ensures Half(Half(Half(Half(x)))) == Down(x)
  {
  }

  lemma FitsByFour(x: bv32, n: nat)
    ensures Fits(x, n + 4) == Fits(Down(x), n)
  {
    FourHalves(x);
    hide Half, Down;
    var a := Half(x);
    var b := Half(a);
    assert Fits(x, n + 4) == Fits(a, n + 3) == Fits(b, n + 2) == Fits(Half(b), n + 1) == Fits(Half(Half(b)), n);
  }

  predicate TopClear(x: bv32) {
    x & 0x8000_0000 == 0
  }

  function Down(x: bv32): bv32 {
    x >> 4
  }

  lemma SevenFours(x: bv32)
    requires Half(Half(Half(Down(Down(Down(Down(Down(Down(Down(x)))))))))) == 0
    ensures TopClear(x)
  {
  }

  lemma LastThree(x: bv32)
    requires Fits(x, 3)
    ensures Half(Half(Half(x))) == 0
  {
    hide Half;
    assert Fits(x, 3) == Fits(Half(x), 2) == Fits(Half(Half(x)), 1) == Fits(Half(Half(Half(x))), 0);
  }

  lemma TopOfFits(x: bv32, n: nat)
    requires Fits(x, n) && n <= 31
    ensures TopClear(x)
  {
    hide Half, Down, TopClear, Fits;
    FitsUpTo(x, n, 31);
    var y := Down(Down(Down(Down(x))));
    FitsByFour(x, 27);
    FitsByFour(Down(x), 23);
    FitsByFour(Down(Down(x)), 19);
    FitsByFour(Down(Down(Down(x))), 15);
    FitsByFour(y, 11);
    FitsByFour(Down(y), 7);
    FitsByFour(Down(Down(y)), 3);
    LastThree(Down(Down(Down(y))));
    SevenFours(x);
  }

  /** The polynomial's top bit is set, so a shift that leaves it clear has dropped a 0. */
  lemma ShiftDropsZero(r: bv32)
    requires TopClear(Shift(r))
    ensures !Odd(r) && Shift(r) == Half(r)
  {
  }

  lemma LowParity(r: bv32, bit: bool)
    requires !Odd(Xor(r, Low(bit)))
    ensures Odd(r) == bit && Half(Xor(r, Low(bit))) == Half(r)
  {
  }

  /** Only a register that holds the next message bits themselves is taken to zero by them. */
  lemma {:induction false} OnlyItselfCancels(r: bv32, d: seq<bool>)
    requires |d| <= 32 && Serial(r, d) == 0
    ensures LowBits(r, |d|) == d && Fits(r, |d|)
    decreases |d|
  {
    if d != [] {
      hide Shift, Xor, Low, Half, Odd;
      var x := Xor(r, Low(d[0]));
      OnlyItselfCancels(Shift(x), d[1..]);
      TopOfFits(Shift(x), |d| - 1);
      ShiftDropsZero(x);
      LowParity(r, d[0]);
      assert d == [d[0]] + d[1..];
    }
  }

  lemma {:induction false} SumIsZero(s: seq<bool>, t: seq<bool>)
    requires |s| == |t| && forall i :: 0 <= i < |s| ==> !Sum(s, t)[i]
    ensures s == t
  {
    if s != [] {
      assert Sum(s, t)[0] == (s[0] != t[0]);
      forall i | 0 <= i < |s| - 1
        ensures !Sum(s[1..], t[1..])[i]
      {
        assert Sum(s, t)[i + 1] == Sum(s[1..], t[1..])[i];
      }
      SumIsZero(s[1..], t[1..]);
    }
  }

  /** The map from up to 32 message bits to the register is injective. */
  lemma WindowIsInjective(r: bv32, w: seq<bool>, v: seq<bool>)
    requires |w| == |v| <= 32 && Serial(r, w) == Serial(r, v)
    ensures w == v
  {
    hide Serial, Xor;
    var d := Sum(w, v);
    SerialXor(r, r, w, v);
    XorLaws(r, r, r);
    XorLaws(Serial(r, w), 0, 0);
    OnlyItselfCancels(0, d);
    NoBitsSet(0, |d|);
    SumIsZero(w, v);
  }

  lemma ShiftIsInjective(r: bv32, s: bv32)
    requires Shift(r) == Shift(s)
    ensures r == s
  {
  }

  lemma AddingIsInjective(r: bv32, s: bv32, x: bv32)
    requires Xor(r, x) == Xor(s, x)
    ensures r == s
  {
  }

  /** Later bits preserve a difference. */
  lemma {:induction false} RegisterIsInjective(r: bv32, s: bv32, d: seq<bool>)
    requires Serial(r, d) == Serial(s, d)
    ensures r == s
    decreases |d|
  {
    if d != [] {
      hide Shift, Xor, Low;
      var x := Low(d[0]);
      RegisterIsInjective(Shift(Xor(r, x)), Shift(Xor(s, x)), d[1..]);
      ShiftIsInjective(Xor(r, x), Xor(s, x));
      AddingIsInjective(r, s, x);
    }
  }

  /** Two messages of one length that differ only inside 32 consecutive bits leave different registers. */
  lemma BurstIsSeen(r: bv32, before: seq<bool>, w: seq<bool>, v: seq<bool>, after: seq<bool>)
    requires |w| == |v| <= 32 && w != v
    ensures Serial(r, before + w + after) != Serial(r, before + v + after)
  {
    hide Serial;
    SerialConcat(r, before + w, after);
    SerialConcat(r, before + v, after);
    SerialConcat(r, before, w);
    SerialConcat(r, before, v);
    if Serial(r, before + w + after) == Serial(r, before + v + after) {
      RegisterIsInjective(Serial(r, before + w), Serial(r, before + v), after);
      WindowIsInjective(Serial(r, before), w, v);
    }
  }

  lemma FromHalf(x: bv32, y: bv32)
    requires Half(x) == Half(y) && Odd(x) == Odd(y)
    ensures x == y
  {
  }

  lemma {:induction false} LowBitsAreInjective(x: bv32, y: bv32, n: nat)
    requires Fits(x, n) && Fits(y, n) && LowBits(x, n) == LowBits(y, n)
    ensures x == y
    decreases n
  {
    if n > 0 {
      hide Half, Odd;
      assert Odd(x) == LowBits(x, n)[0] && Odd(y) == LowBits(y, n)[0];
      assert LowBits(x, n)[1..] == LowBits(Half(x), n - 1) && LowBits(y, n)[1..] == LowBits(Half(y), n - 1);
      LowBitsAreInjective(Half(x), Half(y), n - 1);
      FromHalf(x, y);
    }
  }

  lemma Widen(x: bv8, y: bv8)
    ensures x as bv32 <= 0xFF && (x as bv32 == y as bv32 ==> x == y)
  {
  }

  lemma ByteIsItsBits(x: bv8, y: bv8)
    requires LowBits(x as bv32, 8) == LowBits(y as bv32, 8)
    ensures x == y
  {
    hide LowBits, Fits;
    Widen(x, y);
    Widen(y, x);
    ByteFits(x as bv32);
    ByteFits(y as bv32);
    LowBitsAreInjective(x as bv32, y as bv32, 8);
  }

  lemma SplitBits(a: seq<bool>, b: seq<bool>, c: seq<bool>, d: seq<bool>)
    requires |a| == |c| && a + b == c + d
    ensures a == c && b == d
  {
    assert a == (a + b)[..|a|] == c && b == (a + b)[|a|..] == d;
  }

  lemma {:induction false} BitsAreInjective(w: seq<bv8>, v: seq<bv8>)
    requires |w| == |v| && Bits(w) == Bits(v)
    ensures w == v
  {
    if w != [] {
      hide LowBits, Bits;
      BitsStep(w);
      BitsStep(v);
      SplitBits(LowBits(w[0] as bv32, 8), Bits(w[1..]), LowBits(v[0] as bv32, 8), Bits(v[1..]));
      ByteIsItsBits(w[0], v[0]);
      BitsAreInjective(w[1..], v[1..]);
      assert w == [w[0]] + w[1..] && v == [v[0]] + v[1..];
    }
  }

  /** Two payloads of one length that differ only inside four consecutive bytes have different checksums. */
  lemma FourBytesAreSeen(before: seq<bv8>, w: seq<bv8>, v: seq<bv8>, after: seq<bv8>)
    requires |w| == |v| <= 4 && w != v
    ensures Checksum(before + w + after) != Checksum(before + v + after)
  {
    hide Bits, Serial;
    BitsConcat(before + w, after);
    BitsConcat(before + v, after);
    BitsConcat(before, w);
    BitsConcat(before, v);
    if Bits(w) == Bits(v) {
      BitsAreInjective(w, v);
    }
    BurstIsSeen(0xFFFFFFFF, Bits(before), Bits(w), Bits(v), Bits(after));
    Undone(Serial(0xFFFFFFFF, Bits(before + w + after)), Serial(0xFFFFFFFF, Bits(before + v + after)));
  }

  lemma Undone(x: bv32, y: bv32)
    requires x != y
    ensures !x != !y
  {
  }

  // ---- The generator and the check value ----

  /** The coefficients of the generator polynomial in section 8 of RFC 1952, the highest one first. */
  function Generator(): (bits: seq<bool>)
    ensures |bits| == 33
  {
    seq(33, i requires 0 <= i < 33 => 32 - i in {32, 26, 23, 22, 16, 12, 11, 10, 8, 7, 5, 4, 2, 1, 0})
  }

  lemma LowBitsStep(x: bv32, n: nat)
    ensures LowBits(x, n + 1) == [Odd(x)] + LowBits(Half(x), n)
  {
    hide Half, Odd;
  }

  lemma FourInFront(a: bool, b: bool, c: bool, d: bool, rest: seq<bool>)
    ensures [a] + ([b] + ([c] + ([d] + rest))) == [a, b, c, d] + rest
  {
  }

  lemma FourLowBits(x: bv32, n: nat)
    ensures var a := Half(x);
      var b := Half(a);
      LowBits(x, n + 4) == [Odd(x), Odd(a), Odd(b), Odd(Half(b))] + LowBits(Down(x), n)
  {
    FourHalves(x);
    hide Half, Odd, Down, LowBits;
    var a := Half(x);
    var b := Half(a);
    LowBitsStep(x, n + 3);
    LowBitsStep(a, n + 2);
    LowBitsStep(b, n + 1);
    LowBitsStep(Half(b), n);
    FourInFront(Odd(x), Odd(a), Odd(b), Odd(Half(b)), LowBits(Down(x), n));
  }

  lemma Nibbles()
    ensures Down(0xEDB88320) == 0xEDB8832 && Down(0xEDB8832) == 0xEDB883 && Down(0xEDB883) == 0xEDB88
    ensures Down(0xEDB88) == 0xEDB8 && Down(0xEDB8) == 0xEDB && Down(0xEDB) == 0xED && Down(0xED) == 0xE
    ensures Down(0xE) == 0
  {
  }

  lemma GeneratorBits()
    ensures LowBits(POLYNOMIAL, 32) == Generator()[1..]
  {
    hide LowBits, Down;
    Nibbles();
    FourLowBits(0xEDB88320, 28);
    FourLowBits(0xEDB8832, 24);
    FourLowBits(0xEDB883, 20);
    FourLowBits(0xEDB88, 16);
    FourLowBits(0xEDB8, 12);
    FourLowBits(0xEDB, 8);
    FourLowBits(0xED, 4);
    FourLowBits(0xE, 0);
  }

  lemma PolynomialFits()
    ensures Fits(POLYNOMIAL, 32)
  {
    hide Fits, Down;
    Nibbles();
    FitsByFour(0xEDB88320, 28);
    FitsByFour(0xEDB8832, 24);
    FitsByFour(0xEDB883, 20);
    FitsByFour(0xEDB88, 16);
    FitsByFour(0xEDB8, 12);
    FitsByFour(0xEDB, 8);
    FitsByFour(0xED, 4);
    FitsByFour(0xE, 0);
    NothingFits();
  }

  lemma NothingFits()
    ensures Fits(0, 0)
  {
  }

  lemma {:induction false} ZeroShifts(n: nat)
    ensures Shifts(0, n) == 0
  {
    if n > 0 {
      assert Shift(0) == 0;
      ZeroShifts(n - 1);
    }
  }

  /** The register divides by the generator: it takes the generator's own coefficients from 0 to 0. */
  lemma GeneratorIsTaken()
    ensures Serial(0, Generator()) == 0
  {
    hide Serial, LowBits, Shifts, Fits;
    var bits := Generator();
    FirstCoefficient(bits);
    GeneratorBits();
    PolynomialFits();
    Absorb(POLYNOMIAL, POLYNOMIAL, 32);
    XorLaws(POLYNOMIAL, 0, 0);
    ZeroShifts(32);
  }

  lemma FirstCoefficient(bits: seq<bool>)
    requires bits != [] && bits[0]
    ensures Serial(0, bits) == Serial(POLYNOMIAL, bits[1..])
  {
    assert Shift(Xor(0, Low(true))) == POLYNOMIAL;
  }

  function Eight(y: bv32): bv32 {
    Shift(Shift(Shift(Shift(Shift(Shift(Shift(Shift(y))))))))
  }

  lemma EightShifts(y: bv32)
    ensures Shifts(y, 8) == Eight(y)
  {
    hide Shift;
    var y2 := Shift(Shift(y));
    var y4 := Shift(Shift(y2));
    var y6 := Shift(Shift(y4));
    assert Shifts(y, 8) == Shifts(y2, 6) == Shifts(y4, 4) == Shifts(y6, 2) == Shifts(Shift(Shift(y6)), 0);
  }

  lemma TakesByte(r: bv32, b: bv8)
    ensures Serial(r, LowBits(b as bv32, 8)) == Shifts(Xor(r, b as bv32), 8)
  {
    hide Serial, LowBits, Shifts, Fits;
    ByteIsSmall(r, b);
    ByteFits(b as bv32);
    Absorb(r, b as bv32, 8);
  }

  /** One byte of a message, by the register before and after it. */
  lemma ByteTaken(r: bv32, data: seq<bv8>, i: nat, next: bv32)
    requires i < |data| && r == Serial(0xFFFFFFFF, Bits(data[..i]))
    requires Eight(Xor(r, data[i] as bv32)) == next
    ensures Serial(0xFFFFFFFF, Bits(data[..i + 1])) == next
  {
    hide Serial, Bits, LowBits, Eight, Xor, Shifts;
    NextByte(data, i);
    TakesByte(r, data[i]);
    EightShifts(Xor(r, data[i] as bv32));
  }

  lemma Registers()
    ensures Eight(Xor(0xFFFFFFFF, 0x31)) == 0x7C231048
    ensures Eight(Xor(0x7C231048, 0x32)) == 0xB0ACBB32
    ensures Eight(Xor(0xB0ACBB32, 0x33)) == 0x77B79C2D
    ensures Eight(Xor(0x77B79C2D, 0x34)) == 0x641C1F5C
    ensures Eight(Xor(0x641C1F5C, 0x35)) == 0x340AC5E3
    ensures Eight(Xor(0x340AC5E3, 0x36)) == 0xF68D2C9E
    ensures Eight(Xor(0xF68D2C9E, 0x37)) == 0xAFFC9660
    ensures Eight(Xor(0xAFFC9660, 0x38)) == 0x651F2550
    ensures Eight(Xor(0x651F2550, 0x39)) == 0x340BC6D9
  {
  }

  /** The check value of CRC-32: what comes out for the nine digits from 1 to 9. */
  lemma CheckValue()
    ensures Checksum([0x31, 0x32, 0x33, 0x34, 0x35, 0x36, 0x37, 0x38, 0x39]) == 0xCBF43926
  {
    hide Serial, Bits, Eight, Xor;
    Registers();
    var d: seq<bv8> := [0x31, 0x32, 0x33, 0x34, 0x35, 0x36, 0x37, 0x38, 0x39];
    assert d[..0] == [];
    NoBits(0xFFFFFFFF);
    ByteTaken(0xFFFFFFFF, d, 0, 0x7C231048);
    ByteTaken(0x7C231048, d, 1, 0xB0ACBB32);
    ByteTaken(0xB0ACBB32, d, 2, 0x77B79C2D);
    ByteTaken(0x77B79C2D, d, 3, 0x641C1F5C);
    ByteTaken(0x641C1F5C, d, 4, 0x340AC5E3);
    ByteTaken(0x340AC5E3, d, 5, 0xF68D2C9E);
    ByteTaken(0xF68D2C9E, d, 6, 0xAFFC9660);
    ByteTaken(0xAFFC9660, d, 7, 0x651F2550);
    ByteTaken(0x651F2550, d, 8, 0x340BC6D9);
    assert d[..9] == d;
  }
}
