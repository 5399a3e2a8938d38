/** cJSON_Minify of cJSON.c: blanks and comments are taken out of a text in place. */
module JsonMinify {
  import opened JsonText

  const SLASH: byte := '/' as int
  const STAR: byte := '*' as int
  const NEWLINE: byte := 10

  predicate IsBlank(b: byte) {
    b == 32 || b == 9 || b == 13 || b == NEWLINE
  }

  /** What follows a one-line comment whose text is at the front of `t`. */
  function AfterLine(t: bytes): (r: bytes)
    ensures |r| <= |t|
  {
    if t == [] then [] else if t[0] == NEWLINE then t[1..] else AfterLine(t[1..])
  }

  /** What follows a comment that ends at a star and a slash. */
  function AfterComment(t: bytes): (r: bytes)
    ensures |r| <= |t|
  {
    if t == [] then []
    else if t[0] == STAR && |t| > 1 && t[1] == SLASH then t[2..]
    else AfterComment(t[1..])
  }

  /**
   * Where the string ends whose opening quote stands before `t`; the scanner knows only one escape, that of a quote.
   */
  function StringLen(t: bytes): (n: Option<nat>)
    ensures n.Some? ==> 0 < n.value <= |t|
  {
    if t == [] then None
    else if t[0] == QUOTE then Some(1)
    else if t[0] == BACKSLASH && |t| > 1 && t[1] == QUOTE then Plus(2, StringLen(t[2..]))
    else Plus(1, StringLen(t[1..]))
  }

  function Plus(k: nat, n: Option<nat>): Option<nat> {
    match n
    case None => None
    case Some(m) => Some(k + m)
  }

  function Minify(t: bytes): (r: bytes)
    ensures |r| <= |t|
    decreases |t|
  {
    if t == [] then []
    else if IsBlank(t[0]) then Minify(t[1..])
    else if t[0] == SLASH then
      if |t| > 1 && t[1] == SLASH then Minify(AfterLine(t[2..]))
      else if |t| > 1 && t[1] == STAR then Minify(AfterComment(t[2..]))
      else Minify(t[1..])
    else if t[0] == QUOTE then
      match StringLen(t[1..])
      case Some(n) => t[..n + 1] + Minify(t[n + 1..])
      case None => t
    else [t[0]] + Minify(t[1..])
  }

  // ---- Minifying twice is minifying once ----

  lemma {:induction false} StringLenStays(t: bytes, n: nat, x: bytes)
    requires StringLen(t) == Some(n)
    ensures StringLen(t[..n] + x) == Some(n)
  {
    var u := t[..n] + x;
    assert u[0] == t[0];
    if t[0] != QUOTE {
      var k := if t[0] == BACKSLASH && |t| > 1 && t[1] == QUOTE then 2 else 1;
      StringLenStays(t[k..], n - k, x);
      assert t[k..][..n - k] + x == u[k..];
      assert u[1] == t[1];
    }
  }

  /** For every text, comments, lone slashes and unterminated strings included. */
  lemma {:induction false} MinifyIsIdempotent(t: bytes)
    ensures Minify(Minify(t)) == Minify(t)
    decreases |t|
  {
    hide AfterLine, AfterComment, StringLen;
    if t == [] {
    } else if IsBlank(t[0]) {
      MinifyIsIdempotent(t[1..]);
    } else if t[0] == SLASH {
      MinifyIsIdempotent(
        if |t| > 1 && t[1] == SLASH then AfterLine(t[2..])
        else if |t| > 1 && t[1] == STAR then AfterComment(t[2..])
        else t[1..]);
    } else if t[0] == QUOTE {
      if StringLen(t[1..]).Some? {
        var n := StringLen(t[1..]).value;
        var rest := Minify(t[n + 1..]);
        var r := t[..n + 1] + rest;
        StringLenStays(t[1..], n, rest);
        assert r[1..] == t[1..][..n] + rest;
        assert r[..n + 1] == t[..n + 1] && r[n + 1..] == rest;
        MinifyIsIdempotent(t[n + 1..]);
      }
    } else {
      MinifyIsIdempotent(t[1..]);
    }
  }

  // ---- In place ----

  /** From `i` on, the buffer still has the text and its terminator as they were. */
  predicate Unread(json: array<byte>, text: bytes, i: nat)
    reads json
  {
    i <= |text| < json.Length && json[i..|text|] == text[i..] && json[|text|] == 0
  }

  /** skip_oneline_comment, after its first two bytes. */
  method SkipLine(json: array<byte>, ghost text: bytes, start: nat) returns (i: nat)
    requires NulFree(text) && Unread(json, text, start)
    ensures start <= i <= |text| && text[i..] == AfterLine(text[start..])
  {
    i := start;
    UnreadAt(json, text, i);
    while json[i] != 0
      invariant start <= i <= |text| && Unread(json, text, i) && AfterLine(text[i..]) == AfterLine(text[start..])
      decreases |text| - i
    {
      UnreadAt(json, text, i);
      if json[i] == NEWLINE {
        i := i + 1;
        return;
      }
      i := i + 1;
      UnreadAt(json, text, i);
    }
  }

  /** skip_multiline_comment, after its first two bytes. */
  method SkipComment(json: array<byte>, ghost text: bytes, start: nat) returns (i: nat)
    requires NulFree(text) && Unread(json, text, start)
    ensures start <= i <= |text| && text[i..] == AfterComment(text[start..])
  {
    i := start;
    UnreadAt(json, text, i);
    while json[i] != 0
      invariant start <= i <= |text| && Unread(json, text, i) && AfterComment(text[i..]) == AfterComment(text[start..])
      decreases |text| - i
    {
      UnreadAt(json, text, i);
      if json[i] == STAR && json[i + 1] == SLASH {
        i := i + 2;
        return;
      }
      i := i + 1;
      UnreadAt(json, text, i);
    }
  }

  lemma UnreadAt(json: array<byte>, text: bytes, i: nat)
    requires NulFree(text) && Unread(json, text, i)
    ensures i + 1 <= |text| ==>
      Unread(json, text, i + 1) && json[i] == text[i] != 0 && text[i..] == [text[i]] + text[i + 1..]
    ensures i < |text| ==> json[i + 1] == if i + 1 < |text| then text[i + 1] else 0
    ensures i == |text| ==> json[i] == 0 && text[i..] == []
  {
    if i < |text| {
      assert json[i..|text|][0] == text[i..][0];
      assert json[i..|text|][1..] == json[i + 1..|text|];
      if i + 1 < |text| {
        assert json[i..|text|][1] == text[i..][1];
      }
    }
  }

  /** One byte moves to the front; it lands on or before the place it comes from. */
  method CopyByte(json: array<byte>, ghost text: bytes, i: nat, o: nat)
    requires NulFree(text) && Unread(json, text, i) && o <= i < |text|
    modifies json
    ensures Unread(json, text, i) && json[..o + 1] == old(json[..o]) + [text[i]]
  {
    UnreadAt(json, text, i);
    ghost var unread := json[i..|text|];
    json[o] := json[i];
    assert json[i..|text|] == unread;
  }

  /** The scanner's next position: it takes a backslash and a quote at once. */
  function NextPos(text: bytes, i: nat): (next: nat)
    requires i < |text|
    ensures i < next <= |text| && (text[i] == QUOTE ==> next == i + 1)
  {
    if text[i] == BACKSLASH && i + 1 < |text| && text[i + 1] == QUOTE then i + 2 else i + 1
  }

  /** One turn of the loop of minify_string. */
  method CopyNext(json: array<byte>, ghost text: bytes, i: nat, o: nat) returns (next: nat, closed: bool)
    requires NulFree(text) && Unread(json, text, i) && o <= i < |text|
    modifies json
    ensures closed == (text[i] == QUOTE) && next == NextPos(text, i)
    ensures Unread(json, text, next) && json[..o + (next - i)] == old(json[..o]) + text[i..next]
  {
    UnreadAt(json, text, i);
    CopyByte(json, text, i, o);
    UnreadAt(json, text, i);
    next := i + 1;
    assert text[i..next] == [text[i]];
    if json[i] == QUOTE {
      return next, true;
    }
    closed := false;
    if json[i] == BACKSLASH && json[i + 1] == QUOTE {
      CopyByte(json, text, i + 1, o + 1);
      UnreadAt(json, text, i + 1);
      next := i + 2;
      assert text[i..next] == [text[i]] + [text[i + 1]];
    }
  }

  /** The string whose contents start at `start` ends before `i`. */
  predicate EndsAt(text: bytes, start: nat, i: nat)
    requires start <= |text|
  {
    match StringLen(text[start..])
    case Some(n) => i == start + n
    case None => i == |text|
  }

  /** Whether and where the string ends shows from `i` on. */
  predicate Scanning(text: bytes, start: nat, i: nat)
    requires start <= i <= |text|
  {
    StringLen(text[start..]) == Plus(i - start, StringLen(text[i..]))
  }

  /** The loop of minify_string, up to behind the closing quote. */
  method CopyRest(json: array<byte>, ghost text: bytes, start: nat, from: nat) returns (i: nat, o: nat)
    requires NulFree(text) && |text| < json.Length && Unread(json, text, start) && from <= start <= |text|
    modifies json
    ensures start <= i <= |text| && o == from + (i - start) && Unread(json, text, i)
    ensures json[..o] == old(json[..from]) + text[start..i]
    ensures EndsAt(text, start, i)
  {
    hide NextPos, Unread, EndsAt, Scanning;
    ghost var front := json[..from];
    i, o := start, from;
    UnreadAt(json, text, i);
    ScanStarts(text, i);
    assert front + text[start..i] == front;
    while json[i] != 0
      invariant start <= i <= |text| && o == from + (i - start) && Unread(json, text, i)
      invariant json[..o] == front + text[start..i] && Scanning(text, start, i)
      decreases |text| - i
    {
      UnreadAt(json, text, i);
      ScanTurn(text, start, i);
      var next, closed := CopyNext(json, text, i, o);
      TextJoins(front, text, start, i, next);
      i, o := next, o + (next - i);
      if closed {
        return;
      }
      UnreadAt(json, text, i);
    }
    UnreadAt(json, text, i);
    ScanEnds(text, start);
  }

  /** minify_string */
  method CopyString(json: array<byte>, ghost text: bytes, start: nat, from: nat) returns (i: nat, o: nat)
    requires NulFree(text) && |text| < json.Length && Unread(json, text, start) && from <= start < |text|
    modifies json
    ensures start < i <= |text| && o == from + (i - start) && Unread(json, text, i)
    ensures json[..o] == old(json[..from]) + text[start..i]
    ensures EndsAt(text, start + 1, i)
  {
    hide EndsAt, Unread;
    CopyByte(json, text, start, from);
    UnreadAt(json, text, start);
    i, o := CopyRest(json, text, start + 1, from + 1);
    assert text[start..i] == [text[start]] + text[start + 1..i];
  }

  lemma TextJoins(front: bytes, text: bytes, start: nat, i: nat, next: nat)
    requires start <= i <= next <= |text|
    ensures front + text[start..i] + text[i..next] == front + text[start..next]
  {
  }

  lemma ScanStarts(text: bytes, i: nat)
    requires i <= |text|
    ensures Scanning(text, i, i)
  {
  }

  lemma ScanTurn(text: bytes, start: nat, i: nat)
    requires start <= i < |text| && Scanning(text, start, i)
    ensures if text[i] == QUOTE then EndsAt(text, start, NextPos(text, i)) else Scanning(text, start, NextPos(text, i))
  {
    assert text[i..][1..] == text[i + 1..];
    if i + 1 < |text| {
      assert text[i..][1] == text[i + 1] && text[i..][2..] == text[i + 2..];
    }
  }

  lemma ScanEnds(text: bytes, start: nat)
    requires start <= |text| && Scanning(text, start, |text|)
    ensures EndsAt(text, start, |text|)
  {
  }

  /** One turn of the loop of cJSON_Minify. */
  method MinifyNext(json: array<byte>, ghost text: bytes, i: nat, into: nat) returns (next: nat, out: nat)
    requires NulFree(text) && Unread(json, text, i) && into <= i < |text|
    modifies json
    ensures i < next <= |text| && out <= next && Unread(json, text, next)
    ensures json[..out] + Minify(text[next..]) == old(json[..into]) + Minify(text[i..])
  {
    hide Minify, StringLen;
    UnreadAt(json, text, i);
    MinifyStep(text, i);
    next, out := i + 1, into;
    if IsBlank(json[i]) {
    } else if json[i] == SLASH {
      if json[i + 1] == SLASH {
        UnreadAt(json, text, i + 1);
        next := SkipLine(json, text, i + 2);
        UnreadFrom(json, text, i, next);
      } else if json[i + 1] == STAR {
        UnreadAt(json, text, i + 1);
        next := SkipComment(json, text, i + 2);
        UnreadFrom(json, text, i, next);
      }
    } else if json[i] == QUOTE {
      ghost var done := json[..into];
      next, out := CopyString(json, text, i, into);
      assert done + (text[i..next] + Minify(text[next..])) == done + text[i..next] + Minify(text[next..]);
    } else {
      ghost var done := json[..into];
      CopyByte(json, text, i, into);
      UnreadAt(json, text, i);
      out := into + 1;
      assert done + ([text[i]] + Minify(text[next..])) == done + [text[i]] + Minify(text[next..]);
    }
  }

  lemma UnreadFrom(json: array<byte>, text: bytes, i: nat, j: nat)
    requires Unread(json, text, i) && i <= j <= |text|
    ensures Unread(json, text, j)
  {
    assert json[j..|text|] == json[i..|text|][j - i..] && text[j..] == text[i..][j - i..];
  }

  /**
   * cJSON_Minify, on a buffer that holds the C string `text`: afterwards it holds the minified one. No byte is read
   * behind the terminator, and none is overwritten before it is read.
   */
  method MinifyInPlace(json: array<byte>, ghost text: bytes)
    requires NulFree(text) && Unread(json, text, 0)
    modifies json
    ensures var r := Minify(text); |r| < json.Length && json[..|r|] == r && json[|r|] == 0
  {
    hide Minify;
    var i: nat, into: nat := 0, 0;
    assert text[0..] == text && [] + Minify(text) == Minify(text);
    UnreadAt(json, text, 0);
    while json[i] != 0
      invariant into <= i <= |text| < json.Length && Unread(json, text, i)
      invariant json[..into] + Minify(text[i..]) == Minify(text)
      decreases |text| - i
    {
      UnreadAt(json, text, i);
      i, into := MinifyNext(json, text, i, into);
      UnreadAt(json, text, i);
    }
    UnreadAt(json, text, i);
    NothingToMinify();
    ghost var r := json[..into];
    assert r == r + [] == Minify(text);
    json[into] := 0;
    assert json[..into] == r;
  }

  lemma NothingToMinify()
    ensures Minify([]) == []
  {
  }

  /** What the byte at `i` does. */
  lemma MinifyStep(text: bytes, i: nat)
    requires i < |text|
    ensures var whole := Minify(text[i..]);
      if IsBlank(text[i]) then whole == Minify(text[i + 1..])
      else if text[i] == SLASH then
        whole == if i + 1 < |text| && text[i + 1] == SLASH then Minify(AfterLine(text[i + 2..]))
                 else if i + 1 < |text| && text[i + 1] == STAR then Minify(AfterComment(text[i + 2..]))
                 else Minify(text[i + 1..])
      else if text[i] == QUOTE then
        var end := match StringLen(text[i + 1..]) case Some(n) => i + 1 + n case None => |text|;
        whole == text[i..end] + Minify(text[end..])
      else whole == [text[i]] + Minify(text[i + 1..])
  {
    hide StringLen, AfterLine, AfterComment;
    var t := text[i..];
    assert t[1..] == text[i + 1..];
    if i + 1 < |text| {
      assert t[1] == text[i + 1] && t[2..] == text[i + 2..];
    }
    if t[0] == QUOTE {
      match StringLen(t[1..])
      case Some(n) => assert t[..n + 1] == text[i..i + 1 + n] && t[n + 1..] == text[i + 1 + n..];
      case None => assert text[|text|..] == [] && text[i..|text|] + [] == t;
    }
  }
}
