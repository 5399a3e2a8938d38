/** The parser of cJSON.c: a buffer whose offset moves forward over the input. */
module JsonParser {
  import opened JsonText

  // ---- The scanning pass reserves enough for the decoding pass ----

  /** The backslashes between `p` and `end` that start an escape; `inside` says that `p` is the second byte of one. */
  function Starts(c: bytes, p: nat, end: nat, inside: bool): (n: nat)
    requires end <= |c|
    ensures n <= if p < end then end - p else 0
    decreases end - p
  {
    if p >= end then 0
    else if inside then Starts(c, p + 1, end, false)
    else if c[p] == BACKSLASH then 1 + Starts(c, p + 1, end, true)
    else Starts(c, p + 1, end, false)
  }

  /** Starts are never adjacent: `taken` bytes hold at most half as many, rounded up. */
  lemma {:induction false} StartsAreSparse(c: bytes, p: nat, end: nat, inside: bool, taken: nat) returns (next: bool)
    requires p + taken <= end <= |c|
    ensures Starts(c, p, end, inside) <= Starts(c, p + taken, end, next) + (if inside then taken else taken + 1) / 2
    ensures taken == 0 ==> next == inside
    ensures taken == 1 && c[p] != BACKSLASH ==> Starts(c, p, end, inside) == Starts(c, p + 1, end, next)
    decreases taken
  {
    if taken == 0 {
      next := inside;
    } else {
      next := StartsAreSparse(c, p + 1, end, !inside && c[p] == BACKSLASH, taken - 1);
    }
  }

  /** The bytes from `p` on that are not such a backslash. */
  function Plain(c: bytes, p: nat, end: nat, inside: bool): (n: nat)
    requires p <= end <= |c|
  {
    end - p - Starts(c, p, end, inside)
  }

  /** No step of the decoding pass writes more bytes than the scanning pass counted for the input it takes. */
  lemma StepFits(c: bytes, p: nat, end: nat, inside: bool) returns (next: bool)
    requires p < end < |c| && DecodeOne(c, p, end).Some?
    ensures var d := DecodeOne(c, p, end).value;
      if p + d.taken <= end then |d.out| + Plain(c, p + d.taken, end, next) <= Plain(c, p, end, inside)
      else |d.out| == 1 && d.taken == 2
  {
    var d := DecodeOne(c, p, end).value;
    next := inside;
    if p + d.taken <= end {
      next := StartsAreSparse(c, p, end, inside, d.taken);
    }
  }

  /** What is decoded so far, `done`, and what is still to come make up the whole. */
  predicate Continues(whole: Option<bytes>, done: bytes, rest: Option<bytes>) {
    match rest
    case None => whole.None?
    case Some(s) => whole == Some(done + s)
  }

  lemma ContinuesStart(whole: Option<bytes>)
    ensures Continues(whole, [], whole)
  {
    if whole.Some? {
      assert [] + whole.value == whole.value;
    }
  }

  lemma ContinuesStep(whole: Option<bytes>, done: bytes, out: bytes, rest: Option<bytes>)
    requires Continues(whole, done, if rest.Some? then Some(out + rest.value) else None)
    ensures Continues(whole, done + out, rest)
  {
    if rest.Some? {
      assert done + (out + rest.value) == done + out + rest.value;
    }
  }

  /** What is read so far, `done`, and the outcome of reading on make up the whole outcome. */
  ghost predicate Follows<T>(whole: Parsed<seq<T>>, done: seq<T>, rest: Parsed<seq<T>>) {
    match rest
    case Err => whole.Err?
    case Ok(s, z) => whole == Ok(done + s, z)
  }

  /** What follows once the member `m` is read and the next byte that is not blank stands at `p`. */
  ghost function MembersAfter(k: Libc, c: bytes, p: nat, depth: nat, m: Member): Parsed<seq<Member>> {
    if p >= |c| then Err
    else if c[p] == ',' as int then
      match ParseMembers(k, c, p, depth)
      case Err => Err
      case Ok(rest, z) => Ok([m] + rest, z)
    else if c[p] == '}' as int then Ok([m], p + 1)
    else Err
  }

  lemma FollowsStart<T>(whole: Parsed<seq<T>>)
    ensures Follows(whole, [], whole)
  {
    if whole.Ok? {
      assert [] + whole.value == whole.value;
    }
  }

  lemma FollowsStep<T>(whole: Parsed<seq<T>>, done: seq<T>, x: T, rest: Parsed<seq<T>>)
    requires Follows(whole, done, if rest.Ok? then Ok([x] + rest.value, rest.offset) else Err)
    ensures Follows(whole, done + [x], rest)
  {
    if rest.Ok? {
      assert done + ([x] + rest.value) == done + [x] + rest.value;
    }
  }

  lemma HexStops(c: bytes, p: nat, i: nat)
    requires p + 4 <= |c| && i < 4 && HexValue(c[p + i]).None?
    ensures Hex4(c, p) == 0
  {
    assert HexPrefix(c, p, i + 1).None?;
    assert i + 1 <= 2 ==> HexPrefix(c, p, 2).None?;
    assert i + 1 <= 3 ==> HexPrefix(c, p, 3).None?;
  }

  /** What is left of `u` after `n` turns of six bits each. */
  function Shifted(u: nat, n: nat): nat {
    if n == 0 then u else Shifted(u, n - 1) / 64
  }

  function Mark(length: nat): byte {
    if length == 1 then 0 else if length == 2 then 0xC0 else if length == 3 then 0xE0 else 0xF0
  }

  /** Each byte of an encoding but the first has six bits of the code point, the last byte the lowest. */
  lemma Utf8Bytes(u: nat)
    requires u <= 0x10FFFF
    ensures var r := Utf8(u); var n := |r|;
      && n == (if u < 0x80 then 1 else if u < 0x800 then 2 else if u < 0x10000 then 3 else 4)
      && r[0] == Mark(n) + Shifted(u, n - 1)
      && forall i :: 0 < i < n ==> r[i] == 0x80 + Shifted(u, n - 1 - i) % 64
  {
    assert Shifted(u, 0) == u && Shifted(u, 1) == u / 64;
    assert Shifted(u, 2) == u / 64 / 64 == u / 4096;
    assert Shifted(u, 3) == u / 4096 / 64 == u / 262144;
  }

  lemma Assembled(output: array<byte>, o: nat, r: bytes)
    requires o + |r| <= output.Length && forall i :: 0 <= i < |r| ==> output[o + i] == r[i]
    ensures output[..o + |r|] == output[..o] + r
  {
    assert output[o..o + |r|] == r;
  }

  lemma ShiftMore(u: nat, n: nat)
    ensures Shifted(u, 0) == u && Shifted(u, n + 1) == Shifted(u, n) / 64
  {
  }

  class ParseBuffer {
    const content: bytes
    const lib: Libc
    var offset: nat
    var depth: nat

    constructor (content: bytes, lib: Libc)
      ensures this.content == content && this.lib == lib && offset == 0 && depth == 0
    {
      this.content, this.lib := content, lib;
      offset, depth := 0, 0;
    }

    method SkipWhite()
      modifies `offset
      ensures offset == SkipWhitespace(content, old(offset))
    {
      if offset >= |content| {
        return;
      }
      while offset < |content| && content[offset] <= 32
        invariant old(offset) <= offset <= |content|
        invariant SkipBlanks(content, offset) == SkipBlanks(content, old(offset))
      {
        offset := offset + 1;
      }
      if offset == |content| {
        offset := offset - 1;
      }
    }

    method ReadHex4(p: nat) returns (h: nat)
      requires p + 4 <= |content|
      ensures h == Hex4(content, p)
    {
      h := 0;
      var i := 0;
      while i < 4
        invariant 0 <= i <= 4
        invariant HexPrefix(content, p, i).Some?
        invariant h == HexPrefix(content, p, i).value * if i < 4 then 16 else 1
      {
        var b := content[p + i];
        if '0' as int <= b <= '9' as int {
          h := h + b - '0' as int;
        } else if 'A' as int <= b <= 'F' as int {
          h := h + 10 + b - 'A' as int;
        } else if 'a' as int <= b <= 'f' as int {
          h := h + 10 + b - 'a' as int;
        } else {
          HexStops(content, p, i);
          return 0;
        }
        if i < 3 {
          h := h * 16;
        }
        i := i + 1;
      }
    }

    /** Writes the encoding of `u` at `o`; the masks and marks of the original are written as sums of disjoint bits. */
    method WriteUtf8(u: nat, output: array<byte>, o: nat) returns (next: nat)
      requires u <= 0x10FFFF && o + |Utf8(u)| <= output.Length
      modifies output
      ensures next == o + |Utf8(u)| && output[..next] == old(output[..o]) + Utf8(u)
    {
      hide Utf8, Shifted;
      Utf8Bytes(u);
      ShiftMore(u, 0);
      var codepoint := u;
      var length, mark := 1, 0;
      if codepoint < 0x80 {
      } else if codepoint < 0x800 {
        length, mark := 2, 0xC0;
      } else if codepoint < 0x10000 {
        length, mark := 3, 0xE0;
      } else {
        length, mark := 4, 0xF0;
      }
      var position := length - 1;
      while position > 0
        invariant 0 <= position < length == |Utf8(u)|
        invariant output[..o] == old(output[..o])
        invariant codepoint == Shifted(u, length - 1 - position) && mark == Mark(length)
        invariant forall i :: position < i < length ==> output[o + i] == Utf8(u)[i]
      {
        ShiftMore(u, length - 1 - position);
        output[o + position] := 0x80 + codepoint % 64;
        codepoint := codepoint / 64;
        position := position - 1;
      }
      next := o + length;
      ghost var front := output[..o];
      output[o] := mark + codepoint;
      Assembled(output, o, Utf8(u));
      assert output[..o] == front;
    }

    method DecodeLiteral(p: nat, end: nat, output: array<byte>, o: nat) returns (taken: nat, next: nat)
      requires p <= end <= |content| && o <= output.Length
      requires Literal(content, p, end).Some? ==> o + |Literal(content, p, end).value.out| <= output.Length
      modifies output
      ensures taken == 0 <==> Literal(content, p, end).None?
      ensures taken != 0 ==>
        var r := Literal(content, p, end).value;
        taken == r.taken && next == o + |r.out| <= output.Length && output[..next] == old(output[..o]) + r.out
    {
      hide Utf8, Hex4;
      next := o;
      if end - p < 6 {
        return 0, o;
      }
      var first := ReadHex4(p + 2);
      if 0xDC00 <= first <= 0xDFFF {
        return 0, o;
      }
      var codepoint := first;
      taken := 6;
      if 0xD800 <= first <= 0xDBFF {
        taken := 12;
        if end - (p + 6) < 6 {
          return 0, o;
        }
        if content[p + 6] != BACKSLASH || content[p + 7] != 'u' as int {
          return 0, o;
        }
        var second := ReadHex4(p + 8);
        if second < 0xDC00 || second > 0xDFFF {
          return 0, o;
        }
        codepoint := 0x10000 + (first % 0x400) * 0x400 + second % 0x400;
      }
      next := WriteUtf8(codepoint, output, o);
    }

    /** The first pass over a literal that starts at `offset`: where it ends and how many bytes its escapes skip. */
    method ScanLiteral() returns (ok: bool, end: nat, skipped: nat)
      requires offset < |content| && content[offset] == QUOTE
      ensures ok <==> ScanEnd(content, offset + 1).Some?
      ensures ok ==> ScanEnd(content, offset + 1) == Some(end) && skipped == Starts(content, offset + 1, end, false)
    {
      ghost var target := ScanEnd(content, offset + 1);
      end, skipped := offset + 1, 0;
      while end < |content| && content[end] != QUOTE
        invariant offset + 1 <= end && ScanEnd(content, end) == target
        invariant target.Some? ==>
          end <= target.value
            && Starts(content, offset + 1, target.value, false) == skipped + Starts(content, end, target.value, false)
        decreases |content| - end
      {
        if content[end] == BACKSLASH {
          if end + 1 >= |content| {
            return false, end, skipped;
          }
          skipped := skipped + 1;
          end := end + 1;
        }
        end := end + 1;
      }
      ok := end < |content| && content[end] == QUOTE;
    }

    /** One turn of the decoding loop: the bytes at `p` are decoded to the place `o`. */
    method DecodeStep(p: nat, end: nat, output: array<byte>, o: nat) returns (taken: nat, next: nat)
      requires p < end < |content| && o <= output.Length
      requires DecodeOne(content, p, end).Some? ==> o + |DecodeOne(content, p, end).value.out| <= output.Length
      modifies output
      ensures taken == 0 <==> DecodeOne(content, p, end).None?
      ensures taken != 0 ==>
        var r := DecodeOne(content, p, end).value;
        taken == r.taken && next == o + |r.out| <= output.Length && output[..next] == old(output[..o]) + r.out
    {
      if content[p] != BACKSLASH {
        output[o] := content[p];
        return 1, o + 1;
      }
      var b := content[p + 1];
      if b == 'u' as int {
        taken, next := DecodeLiteral(p, end, output, o);
        return;
      }
      taken, next := 2, o + 1;
      if b == 'b' as int {
        output[o] := 8;
      } else if b == 'f' as int {
        output[o] := 12;
      } else if b == 'n' as int {
        output[o] := 10;
      } else if b == 'r' as int {
        output[o] := 13;
      } else if b == 't' as int {
        output[o] := 9;
      } else if b == QUOTE || b == BACKSLASH || b == '/' as int {
        output[o] := b;
      } else {
        return 0, o;
      }
    }

    /**
     * The second pass: decodes the bytes up to `end` into a buffer of `allocation + 1` bytes.
     * Every write, that of the terminator included, is inside the buffer.
     */
    method DecodeString(end: nat, allocation: nat) returns (ok: bool, output: array<byte>, length: nat)
      requires offset < end < |content|
      requires allocation == end - offset - Starts(content, offset + 1, end, false)
      ensures output.Length == allocation + 1
      ensures ok <==> DecodeAll(content, offset + 1, end).Some?
      ensures ok ==>
        length <= allocation && Some(output[..length]) == DecodeAll(content, offset + 1, end) && output[length] == 0
    {
      hide DecodeOne, Starts;
      output := new byte[allocation + 1];
      length := 0;
      var p := offset + 1;
      ghost var inside := false;
      ghost var target := DecodeAll(content, p, end);
      ContinuesStart(target);
      while p < end
        invariant offset + 1 <= p <= end + 1 && length <= allocation
        invariant p <= end ==> length + Plain(content, p, end, inside) < allocation
        invariant Continues(target, output[..length], DecodeAll(content, p, end))
        decreases end - p
      {
        ghost var one, before := DecodeOne(content, p, end), output[..length];
        if one.Some? {
          inside := StepFits(content, p, end, inside);
        }
        var taken;
        taken, length := DecodeStep(p, end, output, length);
        if taken == 0 {
          return false, output, length;
        }
        ContinuesStep(target, before, one.value.out, DecodeAll(content, p + taken, end));
        p := p + taken;
      }
      output[length] := 0;
      ok := true;
      assert output[..length] + [] == output[..length];
    }

    method ReadString() returns (ok: bool, text: bytes)
      requires offset < |content|
      modifies `offset
      ensures ok <==> ParseString(content, old(offset)).Ok?
      ensures ok ==> ParseString(content, old(offset)) == Ok(text, offset)
    {
      if content[offset] != QUOTE {
        return false, [];
      }
      var found, end, skipped := ScanLiteral();
      if !found {
        return false, [];
      }
      var decoded, output, length := DecodeString(end, end - offset - skipped);
      if !decoded {
        return false, [];
      }
      offset := end + 1;
      return true, output[..length];
    }

    method ReadNumber() returns (ok: bool, item: Item)
      requires offset < |content|
      modifies `offset
      ensures ok <==> ParseNumber(lib, content, old(offset)).Ok?
      ensures ok ==> ParseNumber(lib, content, old(offset)) == Ok(item, offset)
    {
      var i := 0;
      while offset + i < |content| && IsNumberByte(content[offset + i])
        invariant offset + i <= |content| && NumberEnd(content, offset) == NumberEnd(content, offset + i)
      {
        i := i + 1;
      }
      var (number, used) := lib.Strtod(content[offset..offset + i]);
      if used == 0 {
        return false, Null;
      }
      offset := offset + used;
      return true, Number(number);
    }

    method ReadValue() returns (ok: bool, item: Item)
      modifies this
      ensures ok <==> ParseValue(lib, content, old(offset), old(depth)).Ok?
      ensures ok ==> ParseValue(lib, content, old(offset), old(depth)) == Ok(item, offset) && depth == old(depth)
      decreases if offset < |content| then |content| - offset else 0, 3
    {
      item := Null;
      if At(content, offset, Ascii("null")) {
        offset := offset + 4;
        return true, Null;
      }
      if At(content, offset, Ascii("false")) {
        offset := offset + 5;
        return true, False;
      }
      if At(content, offset, Ascii("true")) {
        offset := offset + 4;
        return true, True;
      }
      if offset < |content| && content[offset] == QUOTE {
        var text;
        ok, text := ReadString();
        return ok, String(text);
      }
      if offset < |content| && (content[offset] == '-' as int || '0' as int <= content[offset] <= '9' as int) {
        ok, item := ReadNumber();
        return;
      }
      if offset < |content| && content[offset] == '[' as int {
        ok, item := ReadArray();
        return;
      }
      if offset < |content| && content[offset] == '{' as int {
        ok, item := ReadObject();
        return;
      }
      ok := false;
    }

    method ReadArray() returns (ok: bool, item: Item)
      requires offset < |content|
      modifies this
      ensures ok <==> ParseArray(lib, content, old(offset), old(depth)).Ok?
      ensures ok ==> ParseArray(lib, content, old(offset), old(depth)) == Ok(item, offset) && depth == old(depth)
      decreases |content| - offset, 2
    {
      hide ParseElements, ParseValue, SkipWhitespace;
      item := Null;
      if depth >= NESTING_LIMIT {
        return false, item;
      }
      depth := depth + 1;
      if content[offset] != '[' as int {
        return false, item;
      }
      offset := offset + 1;
      SkipWhite();
      if offset < |content| && content[offset] == ']' as int {
        depth := depth - 1;
        offset := offset + 1;
        return true, Array([]);
      }
      if offset >= |content| {
        offset := offset - 1;
        return false, item;
      }
      offset := offset - 1;
      var items := ReadElements();
      if items.None? {
        return false, item;
      }
      depth := depth - 1;
      offset := offset + 1;
      return true, Array(items.value);
    }

    /** The loop over the elements: stops at the closing bracket. */
    method ReadElements() returns (items: Option<seq<Item>>)
      requires offset < |content|
      modifies this
      ensures items.Some? <==> ParseElements(lib, content, old(offset), old(depth)).Ok?
      ensures items.Some? ==>
        ParseElements(lib, content, old(offset), old(depth)) == Ok(items.value, offset + 1) && depth == old(depth)
      decreases |content| - offset, 1
    {
      hide ParseValue, SkipWhitespace;
      var children: seq<Item> := [];
      ghost var target := ParseElements(lib, content, offset, depth);
      FollowsStart(target);
      while true
        invariant old(offset) <= offset < |content| && depth == old(depth)
        invariant Follows(target, children, ParseElements(lib, content, offset, depth))
        decreases |content| - offset
      {
        ghost var o := offset;
        offset := offset + 1;
        SkipWhite();
        var ok, child := ReadValue();
        if !ok {
          return None;
        }
        ghost var before := children;
        children := children + [child];
        SkipWhite();
        if offset < |content| && content[offset] == ',' as int {
          FollowsStep(target, before, child, ParseElements(lib, content, offset, depth));
        } else {
          break;
        }
      }
      if offset >= |content| || content[offset] != ']' as int {
        return None;
      }
      return Some(children);
    }

    method ReadObject() returns (ok: bool, item: Item)
      requires offset < |content|
      modifies this
      ensures ok <==> ParseObject(lib, content, old(offset), old(depth)).Ok?
      ensures ok ==> ParseObject(lib, content, old(offset), old(depth)) == Ok(item, offset) && depth == old(depth)
      decreases |content| - offset, 2
    {
      hide ParseMembers, ParseValue, SkipWhitespace;
      item := Null;
      if depth >= NESTING_LIMIT {
        return false, item;
      }
      depth := depth + 1;
      if content[offset] != '{' as int {
        return false, item;
      }
      offset := offset + 1;
      SkipWhite();
      if offset < |content| && content[offset] == '}' as int {
        depth := depth - 1;
        offset := offset + 1;
        return true, Object([]);
      }
      if offset >= |content| {
        offset := offset - 1;
        return false, item;
      }
      offset := offset - 1;
      var members := ReadMembers();
      if members.None? {
        return false, item;
      }
      depth := depth - 1;
      offset := offset + 1;
      return true, Object(members.value);
    }

    /** One turn of the loop over the members: a name, a colon and a value. */
    method ReadMember() returns (member: Option<Member>)
      requires offset < |content|
      modifies this
      ensures member.None? ==> ParseMembers(lib, content, old(offset), old(depth)).Err?
      ensures member.Some? ==>
        && old(offset) < offset && depth == old(depth)
        && ParseMembers(lib, content, old(offset), old(depth))
          == MembersAfter(lib, content, offset, depth, member.value)
      decreases |content| - offset, 0
    {
      hide ParseValue, ParseString, SkipWhitespace;
      if offset + 1 >= |content| {
        return None;
      }
      offset := offset + 1;
      SkipWhite();
      var ok, key := ReadString();
      if !ok {
        return None;
      }
      SkipWhite();
      if offset >= |content| || content[offset] != ':' as int {
        return None;
      }
      offset := offset + 1;
      SkipWhite();
      var item;
      ok, item := ReadValue();
      if !ok {
        return None;
      }
      SkipWhite();
      return Some(Member(key, item));
    }

    /** The loop over the members: stops at the closing brace. */
    method ReadMembers() returns (members: Option<seq<Member>>)
      requires offset < |content|
      modifies this
      ensures members.Some? <==> ParseMembers(lib, content, old(offset), old(depth)).Ok?
      ensures members.Some? ==>
        ParseMembers(lib, content, old(offset), old(depth)) == Ok(members.value, offset + 1) && depth == old(depth)
      decreases |content| - offset, 1
    {
      hide ParseMembers;
      var children: seq<Member> := [];
      ghost var target := ParseMembers(lib, content, offset, depth);
      FollowsStart(target);
      while true
        invariant old(offset) <= offset < |content| && depth == old(depth)
        invariant Follows(target, children, ParseMembers(lib, content, offset, depth))
        decreases |content| - offset
      {
        var child := ReadMember();
        if child.None? {
          return None;
        }
        ghost var before := children;
        children := children + [child.value];
        if offset < |content| && content[offset] == ',' as int {
          FollowsStep(target, before, child.value, ParseMembers(lib, content, offset, depth));
        } else {
          break;
        }
      }
      if offset >= |content| || content[offset] != '}' as int {
        return None;
      }
      return Some(children);
    }
  }
}
