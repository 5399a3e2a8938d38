/** What cJSON_Minify does to any text that parses, whoever wrote it. */
module JsonMinifyAnyText {
  import opened JsonText
  import opened JsonRoundTrip
  import opened JsonDocument
  import opened JsonMinify
  import opened JsonMinifyText

  // ---- The scanner and the parser, byte by byte ----

  /** The minifier is outside of what it takes for strings, inside, or inside and right behind a backslash. */
  datatype Scan = Out | In | Behind

  function NextScan(s: Scan, b: byte): Scan {
    match s
    case Out => if b == QUOTE then In else Out
    case In => if b == QUOTE then Out else if b == BACKSLASH then Behind else In
    case Behind => if b == BACKSLASH then Behind else In
  }

  /** The minifier leaves this byte out, if it starts no comment. */
  predicate Takes(s: Scan, b: byte) {
    s.Out? && (IsBlank(b) || b == SLASH)
  }

  predicate Comment(t: bytes) {
    |t| > 1 && t[0] == SLASH && (t[1] == SLASH || t[1] == STAR)
  }

  /** What the minifier leaves of `t`. */
  function Left(s: Scan, t: bytes): bytes {
    match s
    case Out => Minify(t)
    case In => From(true, t)
    case Behind => if t != [] && t[0] == QUOTE then [QUOTE] + From(true, t[1..]) else From(true, t)
  }

  lemma SplitLater(t: bytes, k: nat, n: nat)
    requires k + n <= |t|
    ensures t[..k + n] == t[..k] + t[k..][..n] && t[k + n..] == t[k..][n..]
  {
  }

  lemma Regrouped(a: bytes, b: bytes, c: bytes)
    ensures a + b + c == a + (b + c)
  {
  }

  lemma FromMore(t: bytes, k: nat)
    requires k <= |t| && StringLen(t) == Plus(k, StringLen(t[k..]))
    ensures From(true, t) == t[..k] + From(true, t[k..])
  {
    hide StringLen, Minify;
    if StringLen(t[k..]).Some? {
      var n := StringLen(t[k..]).value;
      SplitLater(t, k, n);
      Regrouped(t[..k], t[k..][..n], Minify(t[k + n..]));
    }
  }

  lemma QuoteEnds(t: bytes)
    requires t != [] && t[0] == QUOTE
    ensures From(true, t) == [QUOTE] + Minify(t[1..])
  {
    hide Minify;
    assert StringLen(t) == Some(1) && t[..1] == [QUOTE];
  }

  lemma OneMore(t: bytes)
    requires t != [] && t[0] != QUOTE && !(t[0] == BACKSLASH && |t| > 1 && t[1] == QUOTE)
    ensures From(true, t) == [t[0]] + From(true, t[1..])
  {
    hide Minify, From;
    FromMore(t, 1);
    assert t[..1] == [t[0]];
  }

  lemma TwoMore(t: bytes)
    requires |t| > 1 && t[0] == BACKSLASH && t[1] == QUOTE
    ensures From(true, t) == [BACKSLASH] + ([QUOTE] + From(true, t[1..][1..]))
  {
    hide Minify, From;
    FromMore(t, 2);
    assert t[1..][1..] == t[2..] && t[..2] == [BACKSLASH] + [QUOTE];
  }

  lemma InsideStep(t: bytes)
    requires t != []
    ensures From(true, t) == [t[0]] + Left(NextScan(In, t[0]), t[1..])
  {
    hide Minify, From, StringLen;
    if t[0] == QUOTE {
      QuoteEnds(t);
    } else if t[0] == BACKSLASH && |t| > 1 && t[1] == QUOTE {
      TwoMore(t);
    } else {
      OneMore(t);
    }
  }

  lemma MinifyQuote(t: bytes)
    requires t != [] && t[0] == QUOTE
    ensures StringLen(t[1..]).None? ==> Minify(t) == t
    ensures StringLen(t[1..]).Some? ==>
      var n := StringLen(t[1..]).value; Minify(t) == t[..n + 1] + Minify(t[n + 1..])
  {
    hide StringLen;
  }

  lemma QuoteOpens(t: bytes)
    requires t != [] && t[0] == QUOTE
    ensures Minify(t) == [QUOTE] + From(true, t[1..])
  {
    hide StringLen, Minify;
    MinifyQuote(t);
    assert t[..1] == [QUOTE];
    if StringLen(t[1..]).Some? {
      var n := StringLen(t[1..]).value;
      SplitLater(t, 1, n);
      Regrouped([QUOTE], t[1..][..n], Minify(t[1 + n..]));
    } else {
      assert t == [QUOTE] + t[1..];
    }
  }

  lemma OutsideStep(t: bytes)
    requires t != [] && t[0] != QUOTE && !Comment(t)
    ensures Minify(t) == (if Takes(Out, t[0]) then [] else [t[0]]) + Minify(t[1..])
  {
  }

  lemma LeftStep(s: Scan, t: bytes)
    requires t != [] && !(s.Out? && Comment(t))
    ensures Left(s, t) == (if Takes(s, t[0]) then [] else [t[0]]) + Left(NextScan(s, t[0]), t[1..])
  {
    hide Minify, From, Comment;
    InsideStep(t);
    if s.Out? {
      if t[0] == QUOTE {
        QuoteOpens(t);
      } else {
        OutsideStep(t);
      }
    }
  }

  /**
   * The parser is outside of its string literals or inside one. There `esc` says whether the scan for the closing quote
   * is right behind a backslash, and `unit` what is left of an escape: 5 behind its backslash, then 4 to 1 for the
   * digits behind a u.
   */
  datatype Place = Outside | Inside(esc: bool, unit: nat)

  function NextPlace(p: Place, b: byte): Place {
    match p
    case Outside => if b == QUOTE then Inside(false, 0) else Outside
    case Inside(esc, unit) =>
      if !esc && b == QUOTE then Outside
      else
        Inside(!esc && b == BACKSLASH,
          if unit == 0 then (if b == BACKSLASH then 5 else 0)
          else if unit == 5 then (if b == 'u' as int then 4 else 0)
          else unit - 1)
  }

  /** The minifier takes nothing out of any string literal. */
  predicate Spared(t: bytes, p: Place, s: Scan) {
    t == [] || (!(p.Inside? && Takes(s, t[0])) && Spared(t[1..], NextPlace(p, t[0]), NextScan(s, t[0])))
  }

  /** What it takes out of a string literal are whole characters: it tears no escape and finds no comment there. */
  predicate Tame(t: bytes, p: Place, s: Scan) {
    t == [] ||
    ((p.Inside? && Takes(s, t[0]) ==> p == Inside(false, 0) && !Comment(t))
     && Tame(t[1..], NextPlace(p, t[0]), NextScan(s, t[0])))
  }

  lemma {:induction false} SparedIsTame(t: bytes, p: Place, s: Scan)
    requires Spared(t, p, s)
    ensures Tame(t, p, s)
  {
    if t != [] {
      SparedIsTame(t[1..], NextPlace(p, t[0]), NextScan(s, t[0]));
    }
  }

  // ---- A text and its minified text, side by side ----

  /** What is left of a C string before its terminator. */
  function Body(c: bytes, o: nat): bytes
    requires o < |c|
  {
    c[o..|c| - 1]
  }

  /** From `o` on, `c` is a tame text with its terminator; from `q` on, `d` is what the minifier leaves of it. */
  predicate Sim(c: bytes, o: nat, d: bytes, q: nat, p: Place, s: Scan) {
    && o < |c| && c[|c| - 1] == 0 && NulFree(c[..|c| - 1])
    && q < |d| && d[q..] == Left(s, Body(c, o)) + [0] && Tame(Body(c, o), p, s)
  }

  predicate SparedAt(c: bytes, o: nat, p: Place, s: Scan)
    requires o < |c|
  {
    Spared(Body(c, o), p, s)
  }

  lemma SimEnd(c: bytes, d: bytes, q: nat, p: Place, s: Scan)
    requires |c| > 0 && Sim(c, |c| - 1, d, q, p, s)
    ensures q == |d| - 1 && d[q] == 0 && SparedAt(c, |c| - 1, p, s)
  {
    assert Left(s, []) == [];
    assert d[q..] == [0];
  }

  lemma SimStep(c: bytes, o: nat, d: bytes, q: nat, p: Place, s: Scan)
    requires Sim(c, o, d, q, p, s) && o < |c| - 1 && (p.Outside? ==> c[o] != SLASH)
    ensures var b := c[o]; var p2, s2 := NextPlace(p, b), NextScan(s, b);
      && b != 0 && (p.Inside? && Takes(s, b) ==> p == Inside(false, 0))
      && (if Takes(s, b) then Sim(c, o + 1, d, q, p2, s2) else d[q] == b && Sim(c, o + 1, d, q + 1, p2, s2))
      && (SparedAt(c, o, p, s) <==> !(p.Inside? && Takes(s, b)) && SparedAt(c, o + 1, p2, s2))
  {
    hide Left;
    var u := Body(c, o);
    assert u[0] == c[o] && u[1..] == Body(c, o + 1);
    assert c[o] == c[..|c| - 1][o];
    LeftStep(s, u);
    if !Takes(s, c[o]) {
      assert d[q..][0] == c[o];
      assert d[q + 1..] == d[q..][1..];
    }
  }

  // ---- Between the tokens ----

  /** Skipping blanks ends at the same byte, however many of them the minifier has left. */
  lemma {:induction false} SkipSim(c: bytes, o: nat, d: bytes, q: nat, s: Scan) returns (r: nat, s2: Scan)
    requires Sim(c, o, d, q, Outside, s) && c[SkipWhitespace(c, o)] != SLASH
    ensures var p := SkipWhitespace(c, o);
      && SkipWhitespace(d, q) == r && Sim(c, p, d, r, Outside, s2) && d[r] == c[p]
      && (SparedAt(c, o, Outside, s) <==> SparedAt(c, p, Outside, s2))
    decreases |c| - o
  {
    hide Sim, SparedAt;
    SimLengths(c, o, d, q, Outside, s);
    if o == |c| - 1 {
      SimEnd(c, d, q, Outside, s);
      r, s2 := q, s;
    } else {
      SimStep(c, o, d, q, Outside, s);
      if c[o] <= 32 {
        var q2 := if Takes(s, c[o]) then q else q + 1;
        SimLengths(c, o + 1, d, q2, Outside, NextScan(s, c[o]));
        SkipOne(c, o);
        r, s2 := SkipSim(c, o + 1, d, q2, NextScan(s, c[o]));
        if q2 == q + 1 {
          SkipOne(d, q);
        }
      } else {
        r, s2 := q, s;
      }
    }
  }

  lemma SkipOne(c: bytes, o: nat)
    requires o + 1 < |c| && c[o] <= 32
    ensures SkipWhitespace(c, o) == SkipWhitespace(c, o + 1)
  {
  }

  lemma SimLengths(c: bytes, o: nat, d: bytes, q: nat, p: Place, s: Scan)
    requires Sim(c, o, d, q, p, s)
    ensures o < |c| && q < |d| && c[|c| - 1] == 0
  {
  }

  /** A byte of a token outside of strings. */
  predicate Solid(b: byte) {
    b > 32 && b != SLASH && b != QUOTE
  }

  /** The minifier leaves tokens as they are. */
  lemma {:induction false} RunSim(c: bytes, o: nat, e: nat, d: bytes, q: nat, s: Scan) returns (s2: Scan)
    requires Sim(c, o, d, q, Outside, s) && o <= e <= |c| && forall i :: o <= i < e ==> Solid(c[i])
    ensures e < |c| && q + (e - o) < |d| && d[q..q + (e - o)] == c[o..e]
    ensures Sim(c, e, d, q + (e - o), Outside, s2) && (SparedAt(c, o, Outside, s) <==> SparedAt(c, e, Outside, s2))
    decreases e - o
  {
    hide Sim, SparedAt;
    SimLengths(c, o, d, q, Outside, s);
    if o == e {
      s2 := s;
    } else {
      assert Solid(c[o]) && o < |c| - 1;
      SimStep(c, o, d, q, Outside, s);
      s2 := RunSim(c, o + 1, e, d, q + 1, NextScan(s, c[o]));
      var n := e - o;
      assert d[q..q + n] == [d[q]] + d[q + 1..q + 1 + (n - 1)];
      assert c[o..e] == [c[o]] + c[o + 1..e];
    }
  }

  /** One byte of punctuation. */
  lemma ByteSim(c: bytes, o: nat, d: bytes, q: nat, s: Scan) returns (s2: Scan)
    requires Sim(c, o, d, q, Outside, s) && Solid(c[o])
    ensures o + 1 < |c| && q + 1 < |d| && d[q] == c[o] && Sim(c, o + 1, d, q + 1, Outside, s2)
    ensures SparedAt(c, o, Outside, s) <==> SparedAt(c, o + 1, Outside, s2)
  {
    hide Sim, SparedAt;
    SimLengths(c, o, d, q, Outside, s);
    SimStep(c, o, d, q, Outside, s);
    s2 := NextScan(s, c[o]);
    SimLengths(c, o + 1, d, q + 1, Outside, s2);
  }

  lemma KeywordSim(c: bytes, o: nat, w: bytes, d: bytes, q: nat, s: Scan) returns (s2: Scan)
    requires Sim(c, o, d, q, Outside, s) && At(c, o, w) && forall i :: 0 <= i < |w| ==> Solid(w[i])
    ensures At(d, q, w) && o + |w| < |c| && Sim(c, o + |w|, d, q + |w|, Outside, s2)
    ensures SparedAt(c, o, Outside, s) <==> SparedAt(c, o + |w|, Outside, s2)
  {
    hide Sim, SparedAt, Solid;
    forall i | o <= i < o + |w|
      ensures Solid(c[i])
    {
      assert c[o + (i - o)] == w[i - o];
    }
    s2 := RunSim(c, o, o + |w|, d, q, s);
    forall i | 0 <= i < |w|
      ensures d[q + i] == w[i]
    {
      assert d[q + i] == d[q..q + |w|][i] == c[o..o + |w|][i] == c[o + i];
    }
  }

  /** Behind a value that ends at `e` comes, after blanks, neither a number nor a slash. */
  predicate Ends(c: bytes, e: nat) {
    var p := SkipWhitespace(c, e);
    p < |c| && !IsNumberByte(c[p]) && c[p] != SLASH
  }

  /** Blanks in front of a byte that continues no number end a number too. */
  lemma EndsStop(c: bytes, e: nat)
    requires e < |c| && !IsNumberByte(c[SkipWhitespace(c, e)])
    ensures Stops(c, e)
  {
  }

  lemma NumberSim(k: Libc, c: bytes, o: nat, d: bytes, q: nat, s: Scan) returns (q2: nat, s2: Scan)
    requires Sim(c, o, d, q, Outside, s) && ParseNumber(k, c, o).Ok? && Ends(c, ParseNumber(k, c, o).offset)
    ensures var r := ParseNumber(k, c, o);
      && r.offset < |c| && ParseNumber(k, d, q) == Ok(r.value, q2) && Sim(c, r.offset, d, q2, Outside, s2)
      && (SparedAt(c, o, Outside, s) <==> SparedAt(c, r.offset, Outside, s2))
  {
    hide Sim, SparedAt, NumberEnd, SkipWhitespace;
    var n, e := NumberEnd(c, o), ParseNumber(k, c, o).offset;
    NumberBytes(c, o);
    WholeNumber(c, o, e);
    s2 := RunSim(c, o, n, d, q, s);
    q2 := q + (n - o);
    var r, s3 := SkipSim(c, n, d, q2, s2);
    EndsStop(d, q2);
    forall i | q <= i < q2
      ensures IsNumberByte(d[i])
    {
      assert d[i] == d[q..q2][i - q] == c[o..n][i - q] == c[o + (i - q)];
    }
    NumberRun(d, q, q2);
  }

  /** A number that is followed by no number byte has used all of its bytes. */
  lemma WholeNumber(c: bytes, o: nat, e: nat)
    requires o < |c| && o <= e <= NumberEnd(c, o) && Ends(c, e)
    ensures e == NumberEnd(c, o)
  {
    NumberBytes(c, o);
    EndsStop(c, e);
  }

  // ---- Inside of string literals ----

  /** Where the literal ends for a scan that is at `p`, perhaps right behind a backslash. */
  function ScanFrom(c: bytes, p: nat, esc: bool): (r: Option<nat>)
    ensures r.Some? ==> p <= r.value < |c| && c[r.value] == QUOTE
  {
    if esc then ScanEnd(c, p + 1) else ScanEnd(c, p)
  }

  lemma ScanStep(c: bytes, p: nat, place: Place)
    requires p + 1 < |c| && place.Inside?
    ensures var next := NextPlace(place, c[p]);
      if next.Outside? then ScanFrom(c, p, place.esc) == Some(p)
      else ScanFrom(c, p, place.esc) == ScanFrom(c, p + 1, next.esc)
  {
  }

  /** The minified literal ends too. */
  lemma {:induction false} ScanSim(c: bytes, p: nat, d: bytes, q: nat, place: Place, s: Scan) returns (end: nat)
    requires Sim(c, p, d, q, place, s) && place.Inside? && ScanFrom(c, p, place.esc).Some?
    ensures ScanFrom(d, q, place.esc) == Some(end)
    decreases |c| - p
  {
    hide Sim, ScanEnd;
    SimLengths(c, p, d, q, place, s);
    NotAtEnd(c, p, place.esc);
    SimStep(c, p, d, q, place, s);
    ScanStep(c, p, place);
    var b, next := c[p], NextPlace(place, c[p]);
    if Takes(s, b) {
      end := ScanSim(c, p + 1, d, q, next, NextScan(s, b));
    } else {
      SimLengths(c, p + 1, d, q + 1, next, NextScan(s, b));
      ScanStep(d, q, place);
      if next.Outside? {
        end := q;
      } else {
        end := ScanSim(c, p + 1, d, q + 1, next, NextScan(s, b));
      }
    }
  }

  lemma NotAtEnd(c: bytes, p: nat, esc: bool)
    requires p < |c| && c[|c| - 1] == 0 && ScanFrom(c, p, esc).Some?
    ensures p < |c| - 1
  {
  }

  /** Where both literals are read, between characters: at or before the closing quotes, or behind both. */
  predicate Both(c: bytes, p: nat, end: nat, d: bytes, q: nat, end2: nat, place: Place, s: Scan) {
    && end < |c| && end2 < |d| && Sim(c, p, d, q, place, s)
    && (place.Inside? ==> ScanFrom(c, p, place.esc) == Some(end) && ScanFrom(d, q, place.esc) == Some(end2))
    && (place.Outside? ==> p == end + 1 && q == end2 + 1)
  }

  lemma BothStep(c: bytes, p: nat, end: nat, d: bytes, q: nat, end2: nat, place: Place, s: Scan)
    requires Both(c, p, end, d, q, end2, place, s) && place.Inside?
    ensures var b := c[p]; var next, s2 := NextPlace(place, b), NextScan(s, b);
      && p + 1 < |c| && p <= end && q <= end2
      && (Takes(s, b) ==> place == Inside(false, 0) && p < end)
      && Both(c, p + 1, end, d, if Takes(s, b) then q else q + 1, end2, next, s2)
      && (!Takes(s, b) ==> d[q] == b && q + 1 < |d|)
      && (SparedAt(c, p, place, s) <==> !Takes(s, b) && SparedAt(c, p + 1, next, s2))
  {
    hide Sim, ScanEnd, SparedAt;
    SimLengths(c, p, d, q, place, s);
    NotAtEnd(c, p, place.esc);
    SimStep(c, p, d, q, place, s);
    ScanStep(c, p, place);
    var b := c[p];
    if !Takes(s, b) {
      SimLengths(c, p + 1, d, q + 1, NextPlace(place, b), NextScan(s, b));
      ScanStep(d, q, place);
    }
  }

  /** The bytes of an escape behind its backslash stay. */
  lemma {:induction false} UnitSim(c: bytes, p: nat, n: nat, end: nat, d: bytes, q: nat, end2: nat, place: Place,
    s: Scan)
      returns (place2: Place, s2: Scan)
    requires Both(c, p, end, d, q, end2, place, s) && place.Inside? && 0 < n <= place.unit <= 5 && p + n <= end + 1
    requires place.unit == 5 ==> n == if c[p] == 'u' as int then 5 else 1
    requires place.unit < 5 ==> n == place.unit && p + n <= end
    requires place.unit == 5 && n == 5 ==> p + n <= end
    ensures p + n < |c| && q + n < |d| && c[p..p + n] == d[q..q + n] && q + n <= end2 + 1
    ensures Both(c, p + n, end, d, q + n, end2, place2, s2) && (p + n <= end ==> q + n <= end2 && place2.Inside?)
    ensures place2.Inside? ==> place2.unit == 0
    ensures SparedAt(c, p, place, s) <==> SparedAt(c, p + n, place2, s2)
    decreases n
  {
    hide Both, SparedAt, ScanEnd;
    BothStep(c, p, end, d, q, end2, place, s);
    var b := c[p];
    place2, s2 := NextPlace(place, b), NextScan(s, b);
    BothLengths(c, p + 1, end, d, q + 1, end2, place2, s2);
    assert c[p..p + 1] == [c[p]] && d[q..q + 1] == [d[q]];
    if n > 1 {
      var next, s3 := place2, s2;
      place2, s2 := UnitSim(c, p + 1, n - 1, end, d, q + 1, end2, next, s3);
      assert c[p..p + n] == [c[p]] + c[p + 1..p + 1 + (n - 1)];
      assert d[q..q + n] == [d[q]] + d[q + 1..q + 1 + (n - 1)];
    }
  }

  lemma BothLengths(c: bytes, p: nat, end: nat, d: bytes, q: nat, end2: nat, place: Place, s: Scan)
    requires Both(c, p, end, d, q, end2, place, s)
    ensures p < |c| && q < |d| && end < |c| && end2 < |d|
    ensures if place.Inside? then p <= end && q <= end2 else p == end + 1 && q == end2 + 1
  {
  }

  /** An escape of one unit, from its backslash on. */
  lemma OneUnit(c: bytes, p: nat, n: nat, end: nat, d: bytes, q: nat, end2: nat, place: Place, s: Scan)
      returns (place2: Place, s2: Scan)
    requires Both(c, p, end, d, q, end2, place, s) && place.Inside? && place.unit == 0 && p + 1 < |c|
    requires c[p] == BACKSLASH && p < end
    requires if c[p + 1] == 'u' as int then n == 6 && p + n <= end else n == 2
    ensures p + n < |c| && q + n < |d| && c[p..p + n] == d[q..q + n] && q + n <= end2 + 1
    ensures Both(c, p + n, end, d, q + n, end2, place2, s2) && (p + n <= end ==> q + n <= end2 && place2.Inside?)
    ensures place2.Inside? ==> place2.unit == 0
    ensures SparedAt(c, p, place, s) <==> SparedAt(c, p + n, place2, s2)
  {
    hide Both, SparedAt, ScanEnd;
    BothStep(c, p, end, d, q, end2, place, s);
    var next, s3 := NextPlace(place, c[p]), NextScan(s, c[p]);
    BothLengths(c, p + 1, end, d, q + 1, end2, next, s3);
    place2, s2 := UnitSim(c, p + 1, n - 1, end, d, q + 1, end2, next, s3);
    assert c[p..p + n] == [c[p]] + c[p + 1..p + 1 + (n - 1)];
    assert d[q..q + n] == [d[q]] + d[q + 1..q + 1 + (n - 1)];
  }

  /** An escape of one unit or of two. */
  lemma EscapeSim(c: bytes, p: nat, end: nat, d: bytes, q: nat, end2: nat, place: Place, s: Scan)
      returns (place2: Place, s2: Scan)
    requires Both(c, p, end, d, q, end2, place, s) && place.Inside? && place.unit == 0 && p < end < |c|
    requires c[p] == BACKSLASH && DecodeOne(c, p, end).Some?
    ensures var n := DecodeOne(c, p, end).value.taken;
      && n > 1 && p + n < |c| && q + n < |d| && c[p..p + n] == d[q..q + n] && q + n <= end2 + 1
      && (n > 2 ==> q + n <= end2)
      && Both(c, p + n, end, d, q + n, end2, place2, s2) && (place2.Inside? ==> place2.unit == 0)
      && (SparedAt(c, p, place, s) <==> SparedAt(c, p + n, place2, s2))
  {
    hide Both, SparedAt, ScanEnd, Hex4, Utf8;
    var n := DecodeOne(c, p, end).value.taken;
    if n < 12 {
      place2, s2 := OneUnit(c, p, n, end, d, q, end2, place, s);
    } else {
      var next, s3 := OneUnit(c, p, 6, end, d, q, end2, place, s);
      place2, s2 := OneUnit(c, p + 6, 6, end, d, q + 6, end2, next, s3);
      assert c[p..p + 12] == c[p..p + 6] + c[p + 6..p + 6 + 6];
      assert d[q..q + 12] == d[q..q + 6] + d[q + 6..q + 6 + 6];
    }
  }

  lemma SameByte(c: bytes, p: nat, d: bytes, q: nat, n: nat, i: nat)
    requires p + n <= |c| && q + n <= |d| && c[p..p + n] == d[q..q + n] && i < n
    ensures c[p + i] == d[q + i]
  {
    assert c[p + i] == c[p..p + n][i] == d[q..q + n][i];
  }

  lemma SamePart(c: bytes, p: nat, d: bytes, q: nat, n: nat, i: nat, m: nat)
    requires p + n <= |c| && q + n <= |d| && c[p..p + n] == d[q..q + n] && i + m <= n
    ensures c[p + i..p + i + m] == d[q + i..q + i + m]
  {
    var a, b := c[p + i..p + i + m], d[q + i..q + i + m];
    forall j | 0 <= j < m
      ensures a[j] == b[j]
    {
      SameByte(c, p, d, q, n, i + j);
    }
  }

  lemma SameHex(c: bytes, p: nat, d: bytes, q: nat)
    requires p + 4 <= |c| && q + 4 <= |d| && c[p..p + 4] == d[q..q + 4]
    ensures Hex4(c, p) == Hex4(d, q)
  {
    SameByte(c, p, d, q, 4, 0);
    SameByte(c, p, d, q, 4, 1);
    SameByte(c, p, d, q, 4, 2);
    SameByte(c, p, d, q, 4, 3);
    assert HexPrefix(c, p, 1) == HexPrefix(d, q, 1);
    assert HexPrefix(c, p, 2) == HexPrefix(d, q, 2);
    assert HexPrefix(c, p, 3) == HexPrefix(d, q, 3);
  }

  /** An escape means the same wherever it stands. */
  lemma SameEscape(c: bytes, p: nat, end: nat, d: bytes, q: nat, end2: nat)
    requires p < end < |c| && q < end2 < |d| && c[p] == BACKSLASH && DecodeOne(c, p, end).Some?
    requires var n := DecodeOne(c, p, end).value.taken;
      p + n <= |c| && q + n <= |d| && c[p..p + n] == d[q..q + n] && (n > 2 ==> q + n <= end2)
    ensures DecodeOne(d, q, end2) == DecodeOne(c, p, end)
  {
    hide Hex4, Utf8;
    var n := DecodeOne(c, p, end).value.taken;
    SameByte(c, p, d, q, n, 0);
    SameByte(c, p, d, q, n, 1);
    if n > 2 {
      SamePart(c, p, d, q, n, 2, 4);
      SameHex(c, p + 2, d, q + 2);
    }
    if n == 12 {
      SameByte(c, p, d, q, n, 6);
      SameByte(c, p, d, q, n, 7);
      SamePart(c, p, d, q, n, 8, 4);
      SameHex(c, p + 8, d, q + 8);
    }
  }

  /** The minified literal stands for the same string exactly if nothing was taken out of it; else for a shorter one. */
  lemma {:induction false} DecodeSim(c: bytes, p: nat, end: nat, d: bytes, q: nat, end2: nat, place: Place, s: Scan)
      returns (y: bytes, s2: Scan)
    requires Both(c, p, end, d, q, end2, place, s) && (place.Inside? ==> place.unit == 0)
    requires end < |c| && end2 < |d| && DecodeAll(c, p, end).Some?
    ensures Both(c, end + 1, end, d, end2 + 1, end2, Outside, s2) && end + 1 < |c|
    ensures var x := DecodeAll(c, p, end).value;
      && DecodeAll(d, q, end2) == Some(y) && |y| <= |x|
      && (SparedAt(c, p, place, s) <==> y == x && SparedAt(c, end + 1, Outside, s2))
    decreases end + 1 - p
  {
    hide Both, SparedAt, ScanEnd, DecodeOne;
    BothLengths(c, p, end, d, q, end2, place, s);
    if place.Outside? {
      y, s2 := [], s;
    } else {
      BothStep(c, p, end, d, q, end2, place, s);
      var b := c[p];
      var next, s3 := NextPlace(place, b), NextScan(s, b);
      BothLengths(c, p + 1, end, d, if Takes(s, b) then q else q + 1, end2, next, s3);
      if p == end {
        y, s2 := [], s3;
      } else if b != BACKSLASH {
        PlainByte(c, p, end);
        if Takes(s, b) {
          y, s2 := DecodeSim(c, p + 1, end, d, q, end2, next, s3);
        } else {
          PlainByte(d, q, end2);
          var z;
          z, s2 := DecodeSim(c, p + 1, end, d, q + 1, end2, next, s3);
          y := [b] + z;
          Longer([b], z, DecodeAll(c, p + 1, end).value);
        }
      } else {
        var one := DecodeOne(c, p, end).value;
        var n := one.taken;
        var place2, s4 := EscapeSim(c, p, end, d, q, end2, place, s);
        SameEscape(c, p, end, d, q, end2);
        var z;
        z, s2 := DecodeSim(c, p + n, end, d, q + n, end2, place2, s4);
        y := one.out + z;
        Longer(one.out, z, DecodeAll(c, p + n, end).value);
      }
    }
  }

  lemma PlainByte(c: bytes, p: nat, end: nat)
    requires p < end < |c| && c[p] != BACKSLASH
    ensures DecodeOne(c, p, end) == Some(Decoded([c[p]], 1))
  {
  }

  lemma Longer(a: bytes, x: bytes, y: bytes)
    ensures a + x == a + y <==> x == y
  {
    assert (a + x)[|a|..] == x && (a + y)[|a|..] == y;
  }

  /** A string literal, from quote to quote. */
  lemma StringSim(c: bytes, o: nat, d: bytes, q: nat, s: Scan) returns (text: bytes, q2: nat, s2: Scan)
    requires Sim(c, o, d, q, Outside, s) && ParseString(c, o).Ok?
    ensures var r := ParseString(c, o);
      && r.offset < |c| && ParseString(d, q) == Ok(text, q2) && Sim(c, r.offset, d, q2, Outside, s2)
      && (SparedAt(c, o, Outside, s) <==> text == r.value && SparedAt(c, r.offset, Outside, s2))
  {
    hide Sim, SparedAt, ScanEnd, DecodeAll;
    SimLengths(c, o, d, q, Outside, s);
    SimStep(c, o, d, q, Outside, s);
    var place, s3 := Inside(false, 0), NextScan(s, QUOTE);
    var end := ScanEnd(c, o + 1).value;
    SimLengths(c, o + 1, d, q + 1, place, s3);
    var end2 := ScanSim(c, o + 1, d, q + 1, place, s3);
    text, s2 := DecodeSim(c, o + 1, end, d, q + 1, end2, place, s3);
    q2 := end2 + 1;
  }

  // ---- Values ----

  /** What a call that has parsed `v` up to `e` comes to on the minified text: a value `w` up to `r`. */
  predicate Same<T(==)>(c: bytes, o: nat, s: Scan, v: T, e: nat, d: bytes, w: T, r: nat, s2: Scan)
    requires o < |c|
  {
    && e < |c| && Sim(c, e, d, r, Outside, s2)
    && (SparedAt(c, o, Outside, s) <==> w == v && SparedAt(c, e, Outside, s2))
  }

  lemma ValueStarts(k: Libc, c: bytes, o: nat, depth: nat)
    requires o < |c| && ParseValue(k, c, o, depth).Ok?
    ensures c[o] > 32 && c[o] != SLASH && c[o] != 0xEF && c[o] != ']' as int
  {
    AtFirst(c, o, Ascii("null"));
    AtFirst(c, o, Ascii("false"));
    AtFirst(c, o, Ascii("true"));
  }

  /** null, true, false and numbers. */
  lemma PlainSim(k: Libc, c: bytes, o: nat, d: bytes, q: nat, s: Scan, depth: nat)
      returns (w: Item, r: nat, s2: Scan)
    requires Sim(c, o, d, q, Outside, s) && ParseValue(k, c, o, depth).Ok?
    requires Ends(c, ParseValue(k, c, o, depth).offset) && c[o] !in {QUOTE, '[' as int, '{' as int}
    ensures var v := ParseValue(k, c, o, depth);
      ParseValue(k, d, q, depth) == Ok(w, r) && Same(c, o, s, v.value, v.offset, d, w, r, s2)
  {
    hide Sim, SparedAt, ParseNumber, Ends;
    SimLengths(c, o, d, q, Outside, s);
    KeywordRoundTrip(k, c, o, depth);
    KeywordRoundTrip(k, d, q, depth);
    var v := ParseValue(k, c, o, depth);
    w := v.value;
    if At(c, o, Ascii("null")) {
      s2 := KeywordSim(c, o, Ascii("null"), d, q, s);
      r := q + 4;
    } else if At(c, o, Ascii("false")) {
      s2 := KeywordSim(c, o, Ascii("false"), d, q, s);
      r := q + 5;
    } else if At(c, o, Ascii("true")) {
      s2 := KeywordSim(c, o, Ascii("true"), d, q, s);
      r := q + 4;
    } else {
      SimStep(c, o, d, q, Outside, s);
      NotKeyword(d, q);
      r, s2 := NumberSim(k, c, o, d, q, s);
    }
  }

  /** The value of a text and of its minified text, up to what follows. */
  lemma {:induction false} ValueSim(k: Libc, c: bytes, o: nat, d: bytes, q: nat, s: Scan, depth: nat)
      returns (w: Item, r: nat, s2: Scan)
    requires Sim(c, o, d, q, Outside, s) && ParseValue(k, c, o, depth).Ok?
    requires Ends(c, ParseValue(k, c, o, depth).offset)
    ensures var v := ParseValue(k, c, o, depth);
      ParseValue(k, d, q, depth) == Ok(w, r) && Same(c, o, s, v.value, v.offset, d, w, r, s2)
    decreases |c| - o, 3
  {
    hide Sim, SparedAt, ParseValue, ParseString, ParseArray, ParseObject, Ends;
    SimLengths(c, o, d, q, Outside, s);
    ValueStarts(k, c, o, depth);
    SimStep(c, o, d, q, Outside, s);
    Dispatch(k, c, o, depth);
    Dispatch(k, d, q, depth);
    if c[o] == QUOTE {
      StringValue(k, c, o, depth);
      var text;
      text, r, s2 := StringSim(c, o, d, q, s);
      w := String(text);
    } else if c[o] == '[' as int {
      w, r, s2 := ArraySim(k, c, o, d, q, s, depth);
    } else if c[o] == '{' as int {
      w, r, s2 := ObjectSim(k, c, o, d, q, s, depth);
    } else {
      w, r, s2 := PlainSim(k, c, o, d, q, s, depth);
    }
  }

  lemma StringValue(k: Libc, c: bytes, o: nat, depth: nat)
    requires o < |c| && c[o] == QUOTE && ParseValue(k, c, o, depth).Ok?
    ensures ParseString(c, o).Ok?
    ensures ParseValue(k, c, o, depth) == Ok(String(ParseString(c, o).value), ParseString(c, o).offset)
  {
    NotKeyword(c, o);
  }

  lemma {:induction false} ArraySim(k: Libc, c: bytes, o: nat, d: bytes, q: nat, s: Scan, depth: nat)
      returns (w: Item, r: nat, s2: Scan)
    requires Sim(c, o, d, q, Outside, s) && ParseArray(k, c, o, depth).Ok?
    ensures var v := ParseArray(k, c, o, depth);
      ParseArray(k, d, q, depth) == Ok(w, r) && Same(c, o, s, v.value, v.offset, d, w, r, s2)
    decreases |c| - o, 2
  {
    hide Sim, SparedAt, ParseElements, SkipWhitespace;
    SimLengths(c, o, d, q, Outside, s);
    var s3 := ByteSim(c, o, d, q, s);
    var p := SkipWhitespace(c, o + 1);
    SkipTwice(c, o + 1);
    ElementsStart(k, c, p, depth);
    var m, s4 := SkipSim(c, o + 1, d, q + 1, s3);
    if c[p] == ']' as int {
      s2 := ByteSim(c, p, d, m, s4);
      w, r := Array([]), m + 1;
    } else {
      var items;
      items, r, s2 := ElementsSim(k, c, p - 1, d, m - 1, s4, depth + 1);
      w := Array(items);
    }
  }

  lemma SkipTwice(c: bytes, o: nat)
    requires o < |c|
    ensures SkipWhitespace(c, SkipWhitespace(c, o)) == SkipWhitespace(c, o)
  {
  }

  /** What stands at `p` behind an opening bracket. */
  lemma ElementsStart(k: Libc, c: bytes, p: nat, depth: nat)
    requires 0 < p < |c| && (c[p] == ']' as int || ParseElements(k, c, p - 1, depth + 1).Ok?)
    requires SkipWhitespace(c, p) == p
    ensures c[p] != SLASH
  {
    hide ParseValue;
    if c[p] != ']' as int {
      ValueStarts(k, c, p, depth + 1);
    }
  }

  /** One element, and the comma or bracket behind it. */
  lemma {:induction false} ElementSim(k: Libc, c: bytes, o: nat, d: bytes, q: nat, s: Scan, depth: nat)
      returns (w: Item, r: nat, s2: Scan)
    requires o + 1 < |c| && Sim(c, o + 1, d, q + 1, Outside, s) && ParseElements(k, c, o, depth).Ok?
    ensures var v := ParseValue(k, c, SkipWhitespace(c, o + 1), depth);
      && v.Ok? && v.offset < |c| && q + 1 < |d| && ParseValue(k, d, SkipWhitespace(d, q + 1), depth).Ok?
      && ParseValue(k, d, SkipWhitespace(d, q + 1), depth).value == w
      && var p := SkipWhitespace(c, v.offset);
      && p < |c| && r < |d| && SkipWhitespace(d, ParseValue(k, d, SkipWhitespace(d, q + 1), depth).offset) == r
      && Sim(c, p, d, r, Outside, s2) && d[r] == c[p] && c[p] in {',' as int, ']' as int}
      && (SparedAt(c, o + 1, Outside, s) <==> w == v.value && SparedAt(c, p, Outside, s2))
    decreases |c| - o, 0
  {
    hide Sim, SparedAt, ParseValue, SkipWhitespace;
    SimLengths(c, o + 1, d, q + 1, Outside, s);
    var p := SkipWhitespace(c, o + 1);
    ValueStarts(k, c, p, depth);
    var m, s3 := SkipSim(c, o + 1, d, q + 1, s);
    var e := ParseValue(k, c, p, depth).offset;
    var z, s4;
    w, z, s4 := ValueSim(k, c, p, d, m, s3, depth);
    SimLengths(c, e, d, z, Outside, s4);
    r, s2 := SkipSim(c, e, d, z, s4);
  }

  lemma {:induction false} ElementsSim(k: Libc, c: bytes, o: nat, d: bytes, q: nat, s: Scan, depth: nat)
      returns (w: seq<Item>, r: nat, s2: Scan)
    requires o + 1 < |c| && Sim(c, o + 1, d, q + 1, Outside, s) && ParseElements(k, c, o, depth).Ok?
    ensures q < |d|
    ensures var v := ParseElements(k, c, o, depth);
      ParseElements(k, d, q, depth) == Ok(w, r) && Same(c, o + 1, s, v.value, v.offset, d, w, r, s2)
    decreases |c| - o, 1
  {
    hide Sim, SparedAt, ParseValue, SkipWhitespace;
    SimLengths(c, o + 1, d, q + 1, Outside, s);
    var e := ParseValue(k, c, SkipWhitespace(c, o + 1), depth).offset;
    var first, m, s3 := ElementSim(k, c, o, d, q, s, depth);
    var p := SkipWhitespace(c, e);
    var s4 := ByteSim(c, p, d, m, s3);
    if c[p] == ',' as int {
      var rest;
      rest, r, s2 := ElementsSim(k, c, p, d, m, s4, depth);
      w := [first] + rest;
      SameHead(first, ParseValue(k, c, SkipWhitespace(c, o + 1), depth).value, rest,
        ParseElements(k, c, p, depth).value);
    } else {
      w, r, s2 := [first], m + 1, s4;
    }
  }

  lemma SameHead<T>(x: T, y: T, a: seq<T>, b: seq<T>)
    ensures [x] + a == [y] + b <==> x == y && a == b
  {
    assert ([x] + a)[0] == x && ([y] + b)[0] == y && ([x] + a)[1..] == a && ([y] + b)[1..] == b;
  }

  /** From `o`, one member is read, and a comma or a brace stands at `p` behind it. */
  ghost predicate ReadsMember(k: Libc, c: bytes, o: nat, depth: nat, m: Member, p: nat) {
    && o + 1 < |c| && ParseString(c, SkipWhitespace(c, o + 1)).Ok?
    && var key := ParseString(c, SkipWhitespace(c, o + 1));
    && var colon := SkipWhitespace(c, key.offset);
    && colon < |c| && c[colon] == ':' as int && ParseValue(k, c, SkipWhitespace(c, colon + 1), depth).Ok?
    && var v := ParseValue(k, c, SkipWhitespace(c, colon + 1), depth);
    && m == Member(key.value, v.value) && p == SkipWhitespace(c, v.offset)
    && p < |c| && c[p] in {',' as int, '}' as int}
  }

  lemma MemberIsRead(k: Libc, c: bytes, o: nat, depth: nat) returns (m: Member, p: nat)
    requires o < |c| && ParseMembers(k, c, o, depth).Ok?
    ensures ReadsMember(k, c, o, depth, m, p) && o < p && (c[p] == ',' as int ==> ParseMembers(k, c, p, depth).Ok?)
  {
    hide ParseValue, ParseString;
    var key := ParseString(c, SkipWhitespace(c, o + 1));
    var colon := SkipWhitespace(c, key.offset);
    var v := ParseValue(k, c, SkipWhitespace(c, colon + 1), depth);
    m, p := Member(key.value, v.value), SkipWhitespace(c, v.offset);
  }

  lemma MembersAre(k: Libc, c: bytes, o: nat, depth: nat, m: Member, p: nat)
    requires ReadsMember(k, c, o, depth, m, p)
    ensures c[p] == '}' as int ==> ParseMembers(k, c, o, depth) == Ok([m], p + 1)
    ensures c[p] == ',' as int && ParseMembers(k, c, p, depth).Ok? ==>
      var rest := ParseMembers(k, c, p, depth); ParseMembers(k, c, o, depth) == Ok([m] + rest.value, rest.offset)
  {
    hide ParseValue, ParseString;
  }

  lemma {:induction false} MemberSim(k: Libc, c: bytes, o: nat, m: Member, p: nat, d: bytes, q: nat, s: Scan,
    depth: nat)
      returns (w: Member, r: nat, s2: Scan)
    requires ReadsMember(k, c, o, depth, m, p) && Sim(c, o + 1, d, q + 1, Outside, s)
    ensures ReadsMember(k, d, q, depth, w, r) && p < |c| && r < |d| && d[r] == c[p] && Sim(c, p, d, r, Outside, s2)
    ensures SparedAt(c, o + 1, Outside, s) <==> w == m && SparedAt(c, p, Outside, s2)
    decreases |c| - o, 0
  {
    hide Sim, SparedAt, ParseValue, ParseString, SkipWhitespace;
    SimLengths(c, o + 1, d, q + 1, Outside, s);
    var a := SkipWhitespace(c, o + 1);
    QuoteStarts(c, a);
    var a2, s3 := SkipSim(c, o + 1, d, q + 1, s);
    var text, e2, s4 := StringSim(c, a, d, a2, s3);
    var e := ParseString(c, a).offset;
    SimLengths(c, e, d, e2, Outside, s4);
    var colon := SkipWhitespace(c, e);
    var colon2, s5 := SkipSim(c, e, d, e2, s4);
    var s6 := ByteSim(c, colon, d, colon2, s5);
    var v := SkipWhitespace(c, colon + 1);
    ValueStarts(k, c, v, depth);
    var v2, s7 := SkipSim(c, colon + 1, d, colon2 + 1, s6);
    var f := ParseValue(k, c, v, depth).offset;
    var item, f2, s8 := ValueSim(k, c, v, d, v2, s7, depth);
    SimLengths(c, f, d, f2, Outside, s8);
    r, s2 := SkipSim(c, f, d, f2, s8);
    w := Member(text, item);
  }

  lemma QuoteStarts(c: bytes, o: nat)
    requires ParseString(c, o).Ok?
    ensures o < |c| && c[o] == QUOTE
  {
  }

  lemma {:induction false} MembersSim(k: Libc, c: bytes, o: nat, d: bytes, q: nat, s: Scan, depth: nat)
      returns (w: seq<Member>, r: nat, s2: Scan)
    requires o + 1 < |c| && Sim(c, o + 1, d, q + 1, Outside, s) && ParseMembers(k, c, o, depth).Ok?
    ensures q < |d|
    ensures var v := ParseMembers(k, c, o, depth);
      ParseMembers(k, d, q, depth) == Ok(w, r) && Same(c, o + 1, s, v.value, v.offset, d, w, r, s2)
    decreases |c| - o, 1
  {
    hide Sim, SparedAt, ParseMembers, ReadsMember;
    SimLengths(c, o + 1, d, q + 1, Outside, s);
    var m, p := MemberIsRead(k, c, o, depth);
    var first, n, s3 := MemberSim(k, c, o, m, p, d, q, s, depth);
    MemberEnds(k, c, o, depth, m, p);
    MembersAre(k, c, o, depth, m, p);
    MembersAre(k, d, q, depth, first, n);
    var s4 := ByteSim(c, p, d, n, s3);
    if c[p] == ',' as int {
      var rest;
      rest, r, s2 := MembersSim(k, c, p, d, n, s4, depth);
      w := [first] + rest;
      SameHead(first, m, rest, ParseMembers(k, c, p, depth).value);
    } else {
      w, r, s2 := [first], n + 1, s4;
    }
  }

  lemma MemberEnds(k: Libc, c: bytes, o: nat, depth: nat, m: Member, p: nat)
    requires ReadsMember(k, c, o, depth, m, p)
    ensures c[p] == ',' as int || c[p] == '}' as int
  {
  }

  lemma {:induction false} ObjectSim(k: Libc, c: bytes, o: nat, d: bytes, q: nat, s: Scan, depth: nat)
      returns (w: Item, r: nat, s2: Scan)
    requires Sim(c, o, d, q, Outside, s) && ParseObject(k, c, o, depth).Ok?
    ensures var v := ParseObject(k, c, o, depth);
      ParseObject(k, d, q, depth) == Ok(w, r) && Same(c, o, s, v.value, v.offset, d, w, r, s2)
    decreases |c| - o, 2
  {
    hide Sim, SparedAt, ParseMembers, SkipWhitespace;
    SimLengths(c, o, d, q, Outside, s);
    var s3 := ByteSim(c, o, d, q, s);
    var p := SkipWhitespace(c, o + 1);
    SkipTwice(c, o + 1);
    MembersStartAt(k, c, p, depth);
    var m, s4 := SkipSim(c, o + 1, d, q + 1, s3);
    if c[p] == '}' as int {
      s2 := ByteSim(c, p, d, m, s4);
      w, r := Object([]), m + 1;
    } else {
      var members;
      members, r, s2 := MembersSim(k, c, p - 1, d, m - 1, s4, depth + 1);
      w := Object(members);
    }
  }

  lemma MembersStartAt(k: Libc, c: bytes, p: nat, depth: nat)
    requires 0 < p < |c| && (c[p] == '}' as int || ParseMembers(k, c, p - 1, depth + 1).Ok?)
    requires SkipWhitespace(c, p) == p
    ensures c[p] != SLASH
  {
    hide ParseValue, ParseString;
    if c[p] != '}' as int {
      QuoteStarts(c, p);
    }
  }

  // ---- Whole texts ----

  lemma SimStart(t: bytes)
    requires NulFree(t) && Tame(t, Outside, Out)
    ensures Sim(t + [0], 0, Minify(t) + [0], 0, Outside, Out)
      && SparedAt(t + [0], 0, Outside, Out) == Spared(t, Outside, Out)
  {
    hide Minify, Tame, Spared, From;
    var c, d := t + [0], Minify(t) + [0];
    assert Body(c, 0) == t && c[..|c| - 1] == t && d[0..] == d;
  }

  /** The byte order mark stays in front. */
  lemma BomSim(k: Libc, c: bytes, d: bytes) returns (q: nat, s: Scan)
    requires Sim(c, 0, d, 0, Outside, Out) && ParseDocument(k, c, true).Ok?
    ensures AfterBom(d) == q && AfterBom(c) < |c| && Sim(c, AfterBom(c), d, q, Outside, s)
    ensures SparedAt(c, 0, Outside, Out) <==> SparedAt(c, AfterBom(c), Outside, s)
  {
    hide Sim, SparedAt, ParseValue, SkipWhitespace;
    SimLengths(c, 0, d, 0, Outside, Out);
    var o := AfterBom(c);
    var p := SkipWhitespace(c, o);
    ValueStarts(k, c, p, 0);
    if o == 3 {
      assert c[0] == c[..3][0] && c[1] == c[..3][1] && c[2] == c[..3][2];
      s := RunSim(c, 0, 3, d, 0, Out);
      q := 3;
      assert d[..3] == d[0..3] == c[0..3] == c[..3];
      var r, s2 := SkipSim(c, 3, d, 3, s);
      SimLengths(c, p, d, r, Outside, s2);
      SimStep(c, p, d, r, Outside, s2);
      SimLengths(c, p + 1, d, r + 1, NextPlace(Outside, c[p]), NextScan(s2, c[p]));
    } else {
      q, s := 0, Out;
      var r, s2 := SkipSim(c, 0, d, 0, Out);
      FirstByte(d);
      NoMark(d);
    }
  }

  lemma NoMark(d: bytes)
    requires d != [] && d[0] != 0xEF
    ensures AfterBom(d) == 0
  {
    assert |d| > 2 ==> d[..3][0] == d[0];
  }

  lemma FirstByte(d: bytes)
    requires d != []
    ensures d[0] <= 32 || SkipWhitespace(d, 0) == 0
  {
  }

  /**
   * For every C string that parses up to its terminator: if the minifier takes only whole characters out of string
   * literals, the minified text parses too, and it stands for the same item exactly if it takes none.
   */
  lemma MinifiedTextParses(k: Libc, t: bytes)
    requires NulFree(t) && ParseDocument(k, t + [0], true).Ok? && Tame(t, Outside, Out)
    ensures var v, r := ParseDocument(k, t + [0], true), ParseDocument(k, Minify(t) + [0], true);
      r.Ok? && r.offset == |Minify(t)| && (r.value == v.value <==> Spared(t, Outside, Out))
  {
    hide Sim, SparedAt, ParseValue, SkipWhitespace, AfterBom, Spared, Minify;
    var c, d := t + [0], Minify(t) + [0];
    SimStart(t);
    var q, s := BomSim(k, c, d);
    var o := AfterBom(c);
    var p := SkipWhitespace(c, o);
    ValueStarts(k, c, p, 0);
    var m, s2 := SkipSim(c, o, d, q, s);
    var e := ParseValue(k, c, p, 0).offset;
    var w, r, s3 := ValueSim(k, c, p, d, m, s2, 0);
    SimLengths(c, e, d, r, Outside, s3);
    var z, s4 := SkipSim(c, e, d, r, s3);
    AtTerminator(t, SkipWhitespace(c, e));
    SimEnd(c, d, z, Outside, s4);
  }

  lemma AtTerminator(t: bytes, p: nat)
    requires NulFree(t) && p <= |t| && (t + [0])[p] == 0
    ensures p == |t|
  {
  }

  /** So minifying changes no item of a text of whose string literals it takes nothing, whatever else the text has. */
  lemma MinifiedTextMeansTheSame(k: Libc, t: bytes)
    requires NulFree(t) && ParseDocument(k, t + [0], true).Ok? && Spared(t, Outside, Out)
    ensures ParseDocument(k, Minify(t) + [0], true) == Ok(ParseDocument(k, t + [0], true).value, |Minify(t)|)
  {
    SparedIsTame(t, Outside, Out);
    MinifiedTextParses(k, t);
  }

  // ---- A torn escape ----

  /** The array of a backslash and a slash, which is escaped in the text. */
  function Torn(): bytes {
    ['[' as int, QUOTE, BACKSLASH, BACKSLASH, QUOTE, ',' as int, QUOTE, BACKSLASH, SLASH, QUOTE, ']' as int]
  }

  /** Without the slash, the backslash escapes the closing quote. */
  function TornLeft(): bytes {
    Torn()[..8] + Torn()[9..]
  }

  lemma TornMinified()
    ensures Minify(Torn()) == TornLeft()
  {
    hide Left;
    var t := Torn();
    LeftOfNothing();
    LeftStep(In, t[10..]);
    LeftStep(Out, t[9..]);
    LeftStep(Out, t[8..]);
    assert t[10..][1..] == [] && t[9..][1..] == t[10..] && t[8..][1..] == t[9..];
    assert Left(Out, t[8..]) == t[9..];
    TornFront(t[8..]);
    assert t == Torn()[..8] + t[8..];
  }

  /** Up to the slash, everything stays. */
  lemma TornFront(rest: bytes)
    ensures Minify(Torn()[..8] + rest) == Torn()[..8] + Left(Out, rest)
  {
    hide StringLen;
    var t := Torn()[..8] + rest;
    var u := t[1..];
    TornLength(rest);
    assert Minify(t) == [t[0]] + Minify(u);
    assert Minify(u) == u[..6] + Minify(u[6..]);
    assert u[6..] == [BACKSLASH] + rest;
    assert Minify([BACKSLASH] + rest) == [BACKSLASH] + Minify(rest);
    assert [t[0]] + (u[..6] + ([BACKSLASH] + Minify(rest))) == Torn()[..8] + Minify(rest);
  }

  lemma TornLength(rest: bytes)
    ensures StringLen((Torn()[..8] + rest)[2..]) == Some(5)
  {
    var t := (Torn()[..8] + rest)[2..];
    assert StringLen(t[4..]) == Some(1);
    assert t[3..][1..] == t[4..] && StringLen(t[3..]) == Some(2);
    assert t[1..][2..] == t[3..] && StringLen(t[1..]) == Some(4);
  }

  lemma LeftOfNothing()
    ensures Left(In, []) == []
  {
  }

  /** So there are texts that parse and whose minified text does not. */
  lemma TornIsRefused(k: Libc)
    ensures var r := ParseDocument(k, Torn() + [0], true);
      r == Ok(Array([String([BACKSLASH]), String([SLASH])]), |Torn()|)
    ensures ParseDocument(k, Minify(Torn()) + [0], true).Err?
  {
    hide ParseDocument, Minify;
    TornMinified();
    TornParses(k);
    TornLeftFails(k);
  }

  lemma TornParses(k: Libc)
    ensures var r := ParseDocument(k, Torn() + [0], true);
      r == Ok(Array([String([BACKSLASH]), String([SLASH])]), |Torn()|)
  {
    hide ParseValue, ParseString, ParseElements, SkipWhitespace;
    var c := Torn() + [0];
    TornStrings();
    SkipsTo(c, 0, 0);
    SkipsTo(c, 1, 1);
    SkipsTo(c, 6, 6);
    SkipsAtEnd(c, 11);
    Dispatch(k, c, 1, 1);
    Dispatch(k, c, 6, 1);
    Dispatch(k, c, 0, 0);
    SkipsTo(c, 10, 10);
    LastElement(k, c, 5, 1, String([SLASH]), 10);
    SkipsTo(c, 5, 5);
    NextElement(k, c, 0, 1, String([BACKSLASH]), 5, [String([SLASH])], 11);
    assert [String([BACKSLASH])] + [String([SLASH])] == [String([BACKSLASH]), String([SLASH])];
  }

  lemma SkipsAtEnd(c: bytes, o: nat)
    requires o == |c| - 1
    ensures SkipWhitespace(c, o) == o
  {
  }

  lemma NoElement(k: Libc, c: bytes, o: nat, depth: nat)
    requires o < |c| && ParseValue(k, c, SkipWhitespace(c, o + 1), depth).Err?
    ensures ParseElements(k, c, o, depth).Err?
  {
  }

  lemma NoMoreElements(k: Libc, c: bytes, o: nat, depth: nat, item: Item, e: nat)
    requires o < |c| && ParseValue(k, c, SkipWhitespace(c, o + 1), depth) == Ok(item, e)
    requires e < |c| && c[e] == ',' as int && ParseElements(k, c, e, depth).Err?
    ensures ParseElements(k, c, o, depth).Err?
  {
    hide ParseValue;
    SkipsTo(c, e, e);
  }

  lemma TornLeftFails(k: Libc)
    ensures ParseDocument(k, TornLeft() + [0], true).Err?
  {
    hide ParseValue, ParseString, ParseElements, SkipWhitespace;
    var d := TornLeft() + [0];
    TornStrings();
    SkipsTo(d, 0, 0);
    SkipsTo(d, 1, 1);
    SkipsTo(d, 6, 6);
    Dispatch(k, d, 1, 1);
    Dispatch(k, d, 0, 0);
    NoString(k, d, 6, 1);
    NoElement(k, d, 5, 1);
    NoMoreElements(k, d, 0, 1, String([BACKSLASH]), 5);
  }

  lemma TornStrings()
    ensures var c, d := Torn() + [0], TornLeft() + [0];
      && ParseString(c, 1) == Ok([BACKSLASH], 5) && ParseString(c, 6) == Ok([SLASH], 10)
      && ParseString(d, 1) == Ok([BACKSLASH], 5) && ParseString(d, 6).Err?
  {
    var c, d := Torn() + [0], TornLeft() + [0];
    assert ScanEnd(c, 4) == Some(4) && ScanEnd(c, 9) == Some(9) && ScanEnd(d, 4) == Some(4);
    assert ScanEnd(c, 2) == Some(4) && ScanEnd(c, 7) == Some(9) && ScanEnd(d, 2) == Some(4);
    assert DecodeAll(c, 4, 4) == Some([]) && DecodeAll(c, 9, 9) == Some([]) && DecodeAll(d, 4, 4) == Some([]);
    assert DecodeOne(c, 2, 4) == Some(Decoded([BACKSLASH], 2)) && DecodeOne(c, 7, 9) == Some(Decoded([SLASH], 2));
    assert DecodeOne(d, 2, 4) == Some(Decoded([BACKSLASH], 2));
    assert [BACKSLASH] + [] == [BACKSLASH] && [SLASH] + [] == [SLASH];
    assert ScanEnd(d, 11) == None;
    assert ScanEnd(d, 10) == None && ScanEnd(d, 9) == None;
  }

  lemma NoString(k: Libc, c: bytes, o: nat, depth: nat)
    requires o < |c| && c[o] == QUOTE && ParseString(c, o).Err?
    ensures ParseValue(k, c, o, depth).Err?
  {
    NotKeyword(c, o);
  }
}
