/** The printer of cJSON.c: a buffer that grows on demand. */
module JsonPrinter {
  import opened JsonText

  // ---- Texts are C strings ----

  /** All strings and keys are C strings, and so is the form of every number, in 25 bytes at most. */
  predicate CStrings(k: Libc, item: Item)
    decreases item, 1
  {
    match item
    case Number(v) => v == IntOf(v) as real || (NulFree(k.format(v)) && |k.format(v)| <= 25)
    case String(s) => NulFree(s)
    case Array(items) => CStringItems(k, items)
    case Object(members) => CStringMembers(k, members)
    case _ => true
  }

  predicate CStringItems(k: Libc, items: seq<Item>)
    decreases items, 0
  {
    items == [] || (CStrings(k, items[0]) && CStringItems(k, items[1..]))
  }

  predicate CStringMembers(k: Libc, members: seq<Member>)
    decreases members, 0
  {
    members == [] || (NulFree(members[0].key) && CStrings(k, members[0].item) && CStringMembers(k, members[1..]))
  }

  /** What reads back can be printed. */
  lemma {:induction false} PrintableMeansCStrings(k: Libc, item: Item, levels: int)
    requires Printable(item, levels)
    ensures CStrings(k, item)
    decreases item, 1
  {
    match item
    case Array(items) => PrintableMeansCStringItems(k, items, levels - 1);
    case Object(members) => PrintableMeansCStringMembers(k, members, levels - 1);
    case _ =>
  }

  lemma {:induction false} PrintableMeansCStringItems(k: Libc, items: seq<Item>, levels: int)
    requires PrintableItems(items, levels)
    ensures CStringItems(k, items)
    decreases items, 0
  {
    if items != [] {
      PrintableMeansCStrings(k, items[0], levels);
      PrintableMeansCStringItems(k, items[1..], levels);
    }
  }

  lemma {:induction false} PrintableMeansCStringMembers(k: Libc, members: seq<Member>, levels: int)
    requires PrintableMembers(members, levels)
    ensures CStringMembers(k, members)
    decreases members, 0
  {
    if members != [] {
      PrintableMeansCStrings(k, members[0].item, levels);
      PrintableMeansCStringMembers(k, members[1..], levels);
    }
  }

  lemma {:induction false} EscapeNulFree(s: bytes)
    requires NulFree(s)
    ensures NulFree(EscapeAll(s))
  {
    if s != [] {
      EscapeNulFree(s[1..]);
    }
  }

  lemma {:induction false} TextNulFree(k: Libc, item: Item, format: bool, column: nat)
    requires CStrings(k, item)
    ensures NulFree(ItemText(k, item, format, column))
    decreases item, 1
  {
    match item
    case Null =>
    case False =>
    case True =>
    case Number(v) =>
    case String(s) => EscapeNulFree(s);
    case Array(items) => ItemsNulFree(k, items, format, column + 1);
    case Object(members) => MembersNulFree(k, members, format, column + 1);
  }

  lemma {:induction false} ItemsNulFree(k: Libc, items: seq<Item>, format: bool, column: nat)
    requires CStringItems(k, items)
    ensures NulFree(ItemsText(k, items, format, column))
    decreases items, 0
  {
    if items != [] {
      TextNulFree(k, items[0], format, column);
      ItemsNulFree(k, items[1..], format, column);
    }
  }

  lemma {:induction false} MembersNulFree(k: Libc, members: seq<Member>, format: bool, column: nat)
    requires CStringMembers(k, members)
    ensures NulFree(MembersText(k, members, format, column))
    decreases members, 0
  {
    if members != [] {
      EscapeNulFree(members[0].key);
      TextNulFree(k, members[0].item, format, column);
      MembersNulFree(k, members[1..], format, column);
    }
  }

  class PrintBuffer {
    var buffer: array<byte>
    var length: nat
    var offset: nat
    var depth: nat
    const noalloc: bool
    const format: bool
    const lib: Libc

    constructor (buffer: array<byte>, noalloc: bool, format: bool, lib: Libc)
      requires buffer.Length <= INT_MAX
      ensures Valid() && offset == 0 && depth == 0 && this.buffer == buffer
      ensures this.noalloc == noalloc && this.format == format && this.lib == lib
    {
      this.buffer, length, offset, depth := buffer, buffer.Length, 0, 0;
      this.noalloc, this.format, this.lib := noalloc, format, lib;
    }

    ghost predicate Valid()
      reads this
    {
      length == buffer.Length <= INT_MAX && (if length == 0 then offset == 0 else offset < length)
    }

    /** The largest size the buffer may get. */
    function Capacity(): nat
      reads this
    {
      if noalloc then length else INT_MAX
    }

    /** The buffer is the same one as before or a new one, which a caller's own buffer never is. */
    twostate predicate Moves()
      reads this
    {
      && (buffer == old(buffer) || fresh(buffer))
      && (noalloc ==> buffer == old(buffer) && length == old(length))
    }

    /** Nothing before `o` is lost, whether or not the buffer has moved. */
    twostate predicate Keeps(new o: nat)
      reads this, buffer
    {
      && Moves() && o <= old(buffer.Length) <= buffer.Length && buffer[..o] == old(buffer[..o])
    }

    /** The C string `text` stands at `o`. */
    ghost predicate Holds(o: nat, text: bytes)
      reads this`buffer, buffer
    {
      o + |text| < buffer.Length && buffer[o..o + |text|] == text && buffer[o + |text|] == 0
    }

    method Ensure(needed: nat) returns (ok: bool)
      requires Valid()
      modifies this`buffer, this`length
      ensures Valid() && Keeps(old(buffer.Length))
      ensures ok <==> offset + needed + 1 <= old(Capacity())
      ensures ok ==> offset + needed < length
    {
      if length > 0 && offset >= length {
        return false;
      }
      if needed > INT_MAX {
        return false;
      }
      var size := needed + offset + 1;
      if size <= length {
        return true;
      }
      if noalloc {
        return false;
      }
      var newSize := size * 2;
      if size > INT_MAX / 2 {
        if size <= INT_MAX {
          newSize := INT_MAX;
        } else {
          return false;
        }
      }
      var newBuffer := new byte[newSize];
      forall i | 0 <= i < buffer.Length {
        newBuffer[i] := buffer[i];
      }
      length, buffer := newSize, newBuffer;
      ok := true;
    }

    /** strcpy and memcpy: the bytes of `text` at `o`. */
    method Copy(o: nat, text: bytes)
      requires o + |text| <= buffer.Length
      modifies buffer
      ensures buffer[o..o + |text|] == text
      ensures forall i :: 0 <= i < buffer.Length && !(o <= i < o + |text|) ==> buffer[i] == old(buffer[i])
    {
      forall i | 0 <= i < |text| {
        buffer[o + i] := text[i];
      }
    }

    /** The pieces of a text make up the whole. */
    lemma HoldsAll(o: nat, kept: bytes, done: bytes, last: bytes)
      requires offset <= buffer.Length && o == |kept| && buffer[..offset] == kept + done && Holds(offset, last)
      ensures Holds(o, done + last) && buffer[..o] == kept && offset == o + |done|
    {
      assert |buffer[..offset]| == o + |done|;
      assert buffer[..o] == buffer[..offset][..o];
      assert buffer[o..offset] == buffer[..offset][o..];
      assert buffer[o..o + |done + last|] == buffer[o..offset] + buffer[offset..offset + |last|];
    }

    /** update_offset: strlen from the current offset. */
    method UpdateOffset(ghost o: nat, ghost text: bytes)
      requires Valid() && Holds(o, text) && NulFree(text) && o <= offset <= o + |text|
      modifies `offset
      ensures Valid() && offset == o + |text|
    {
      var i := offset;
      NoNulBefore(o, text);
      while buffer[i] != 0
        invariant offset <= i <= o + |text|
        decreases o + |text| - i
      {
        i := i + 1;
      }
      offset := i;
    }

    lemma NoNulBefore(o: nat, text: bytes)
      requires Holds(o, text) && NulFree(text)
      ensures forall i :: o <= i < o + |text| ==> buffer[i] != 0
    {
      forall i | o <= i < o + |text|
        ensures buffer[i] != 0
      {
        assert buffer[i] == buffer[o..o + |text|][i - o];
      }
    }

    /** The outcome of printing `text` at the offset: it succeeds exactly when there is room for two bytes more. */
    twostate predicate Printed(ok: bool, text: bytes)
      requires old(Valid())
      reads this, buffer
    {
      && Valid() && Moves()
      && (ok <==> old(offset) + |text| + 2 <= old(Capacity()))
      && (ok ==>
            && buffer.Length >= old(offset) && buffer[..old(offset)] == old(buffer[..offset])
            && Holds(old(offset), text) && old(offset) <= offset <= old(offset) + |text| && depth == old(depth))
    }

    /** The counting pass of print_string_ptr: how many bytes the escaped string takes. */
    method CountEscaped(input: bytes) returns (outputLength: nat, escapes: nat)
      ensures outputLength == |EscapeAll(input)| == |input| + escapes
    {
      escapes := 0;
      var i := 0;
      while i < |input|
        invariant 0 <= i <= |input| && |EscapeAll(input[..i])| == i + escapes
      {
        EscapeNext(input, i);
        var b := input[i];
        if b == QUOTE || b == BACKSLASH || b == 8 || b == 12 || b == 10 || b == 13 || b == 9 {
          escapes := escapes + 1;
        } else if b < 32 {
          escapes := escapes + 5;
        }
        i := i + 1;
      }
      assert input[..i] == input;
      outputLength := i + escapes;
    }

    /** sprintf of "u%04x", which also terminates what it writes. */
    method WriteUnicode(b: byte, o: nat)
      requires o + 5 < buffer.Length
      modifies buffer
      ensures buffer[..o] == old(buffer[..o])
        && buffer[o..o + 5] == ['u' as int, '0' as int, '0' as int, HexDigit(b / 16), HexDigit(b % 16)]
    {
      var text: bytes := ['u' as int, '0' as int, '0' as int, HexDigit(b / 16), HexDigit(b % 16), 0];
      Copy(o, text);
      assert buffer[o..o + 5] == text[..5];
    }

    /** What follows the backslash: one byte, or five. */
    method WriteEscapeRest(b: byte, o: nat) returns (next: nat)
      requires (b <= 31 || b == QUOTE || b == BACKSLASH) && o + |Escape(b)| <= buffer.Length
      modifies buffer
      ensures next == o + |Escape(b)| - 1 && buffer[o..next] == Escape(b)[1..] && buffer[..o] == old(buffer[..o])
    {
      next := o + 1;
      if b == BACKSLASH {
        buffer[o] := BACKSLASH;
      } else if b == QUOTE {
        buffer[o] := QUOTE;
      } else if b == 8 {
        buffer[o] := 'b' as int;
      } else if b == 12 {
        buffer[o] := 'f' as int;
      } else if b == 10 {
        buffer[o] := 'n' as int;
      } else if b == 13 {
        buffer[o] := 'r' as int;
      } else if b == 9 {
        buffer[o] := 't' as int;
      } else {
        WriteUnicode(b, o);
        next := o + 5;
      }
    }

    /** One byte of the writing pass. */
    method WriteEscape(b: byte, o: nat) returns (next: nat)
      requires o + |Escape(b)| < buffer.Length
      modifies buffer
      ensures next == o + |Escape(b)| && buffer[o..next] == Escape(b) && buffer[..o] == old(buffer[..o])
    {
      if b > 31 && b != QUOTE && b != BACKSLASH {
        buffer[o] := b;
        next := o + 1;
      } else {
        buffer[o] := BACKSLASH;
        ghost var head := buffer[..o + 1];
        next := WriteEscapeRest(b, o + 1);
        assert buffer[..o] == head[..o] && buffer[o] == head[o];
        assert buffer[o..next] == [BACKSLASH] + Escape(b)[1..];
      }
    }

    /** What was written before `p` is still there after more was written behind it. */
    lemma Written(before: bytes, o: nat, p: nat, q: nat)
      requires o <= p <= q <= buffer.Length && before == buffer[..p]
      ensures buffer[..o] == before[..o] && buffer[o..q] == before[o..] + buffer[p..q]
    {
    }

    /** The writing pass of print_string_ptr: the escaped string at `o`. */
    method WriteEscaped(input: bytes, o: nat)
      requires o + |EscapeAll(input)| < buffer.Length
      modifies buffer
      ensures buffer[o..o + |EscapeAll(input)|] == EscapeAll(input)
      ensures buffer[..o] == old(buffer[..o])
    {
      hide Escape;
      var q := o;
      var i := 0;
      while i < |input|
        invariant 0 <= i <= |input| && q == o + |EscapeAll(input[..i])|
        invariant q + |EscapeAll(input[i..])| == o + |EscapeAll(input)|
        invariant buffer[o..q] == EscapeAll(input[..i]) && buffer[..o] == old(buffer[..o])
      {
        EscapeNext(input, i);
        ghost var before, p := buffer[..q], q;
        q := WriteEscape(input[i], q);
        Written(before, o, p, q);
        i := i + 1;
      }
      assert input[..i] == input;
    }

    /** The string between the quotes, which is copied as a whole if it has nothing to escape. */
    method PutEscaped(input: bytes, o: nat, escapes: nat)
      requires |EscapeAll(input)| == |input| + escapes && o + |EscapeAll(input)| < buffer.Length
      modifies buffer
      ensures buffer[o..o + |EscapeAll(input)|] == EscapeAll(input) && buffer[..o] == old(buffer[..o])
    {
      hide EscapeAll;
      if escapes == 0 {
        PlainText(input);
        Copy(o, input);
      } else {
        WriteEscaped(input, o);
      }
    }

    /** The quoted string at the offset, after the counting pass and the reservation. */
    method PutQuoted(input: bytes, outputLength: nat, escapes: nat)
      requires outputLength == |EscapeAll(input)| == |input| + escapes && offset + outputLength + 3 <= buffer.Length
      modifies buffer
      ensures Holds(offset, Quoted(input)) && buffer[..offset] == old(buffer[..offset])
    {
      hide EscapeAll;
      var o := offset + 1;
      buffer[offset] := QUOTE;
      ghost var before := buffer[..o];
      PutEscaped(input, o, escapes);
      ghost var text := buffer[..o + outputLength];
      assert text == before + EscapeAll(input);
      buffer[o + outputLength] := QUOTE;
      buffer[o + outputLength + 1] := 0;
      assert buffer[..o + outputLength] == text;
      assert buffer[..offset] == text[..offset] == before[..offset];
      assert buffer[offset..o + outputLength + 1] == text[offset..] + [QUOTE];
    }

    /** print_string_ptr */
    method PrintString(input: bytes) returns (ok: bool)
      requires Valid() && NulFree(input)
      modifies this, buffer
      ensures Printed(ok, Quoted(input))
    {
      hide EscapeAll, Holds;
      var outputLength, escapes := CountEscaped(input);
      ok := Ensure(outputLength + 3);
      if !ok {
        return;
      }
      PutQuoted(input, outputLength, escapes);
    }

    /** strcpy at the offset, after room was made. */
    method PutText(text: bytes)
      requires Valid() && offset + |text| < length
      modifies buffer
      ensures Holds(offset, text) && buffer[..offset] == old(buffer[..offset])
    {
      Copy(offset, text);
      ghost var put := buffer[offset..offset + |text|];
      buffer[offset + |text|] := 0;
      assert buffer[offset..offset + |text|] == put;
    }

    method PrintNumber(v: real) returns (ok: bool)
      requires Valid() && CStrings(lib, Number(v))
      modifies this, buffer
      ensures Printed(ok, NumberText(lib, v))
    {
      hide Decimal, Holds, CStrings;
      NumberFits(lib, v);
      var text := if v == IntOf(v) as real then Decimal(IntOf(v)) else lib.format(v);
      if |text| > 25 {
        return false;
      }
      ok := Ensure(|text| + 1);
      if !ok {
        return;
      }
      PutText(text);
      offset := offset + |text|;
    }

    /** The outcome of appending `text` after reserving `needed` bytes. */
    twostate predicate Appended(ok: bool, text: bytes, needed: nat)
      requires old(Valid())
      reads this, buffer
    {
      && Valid() && Moves()
      && (ok <==> old(offset) + needed + 1 <= old(Capacity()))
      && (ok ==> buffer[..offset] == old(buffer[..offset]) + text && depth == old(depth))
    }

    method Append(text: bytes, needed: nat, terminate: bool) returns (ok: bool)
      requires Valid() && if terminate then |text| < needed else |text| <= needed
      modifies this`buffer, this`length, this`offset, buffer
      ensures Appended(ok, text, needed)
    {
      ok := Ensure(needed);
      if !ok {
        return;
      }
      Copy(offset, text);
      assert buffer[..offset] == old(buffer[..offset]);
      ghost var put := buffer[..offset + |text|];
      assert put == buffer[..offset] + buffer[offset..offset + |text|];
      offset := offset + |text|;
      if terminate {
        buffer[offset] := 0;
      }
      assert buffer[..offset] == put;
    }

    /** The last piece of a text: it is terminated, and the offset stays. */
    method Finish(text: bytes, needed: nat) returns (ok: bool)
      requires Valid() && |text| < needed
      modifies this`buffer, this`length, buffer
      ensures Valid() && Keeps(old(offset)) && (ok <==> offset + needed + 1 <= old(Capacity()))
      ensures ok ==> Holds(offset, text)
    {
      ok := Ensure(needed);
      if ok {
        PutText(text);
      }
    }

    /** print_value and the update_offset that always follows it. */
    method AppendValue(item: Item) returns (ok: bool)
      requires Valid() && CStrings(lib, item)
      modifies this, buffer
      ensures Appended(ok, ItemText(lib, item, format, old(depth)), |ItemText(lib, item, format, old(depth))| + 1)
      decreases item, 3
    {
      hide ItemText, CStrings;
      ghost var o, text := offset, ItemText(lib, item, format, depth);
      ok := PrintValue(item);
      if ok {
        TextNulFree(lib, item, format, depth);
        UpdateOffset(o, text);
        assert buffer[..offset] == buffer[..o] + buffer[o..o + |text|];
      }
    }

    /** print_string_ptr and the update_offset that follows it. */
    method AppendString(s: bytes) returns (ok: bool)
      requires Valid() && NulFree(s)
      modifies this, buffer
      ensures Appended(ok, Quoted(s), |Quoted(s)| + 1)
    {
      ghost var o := offset;
      ok := PrintString(s);
      if ok {
        EscapeNulFree(s);
        UpdateOffset(o, Quoted(s));
        assert buffer[..offset] == buffer[..o] + buffer[o..o + |Quoted(s)|];
      }
    }

    method PrintKeyword(text: bytes) returns (ok: bool)
      requires Valid()
      modifies this`buffer, this`length, buffer
      ensures Printed(ok, text)
    {
      ok := Finish(text, |text| + 1);
    }

    method PrintValue(item: Item) returns (ok: bool)
      requires Valid() && CStrings(lib, item)
      modifies this, buffer
      ensures Printed(ok, ItemText(lib, item, format, old(depth)))
      decreases item, 2
    {
      match item
      case Null => ok := PrintKeyword(Ascii("null"));
      case False => ok := PrintKeyword(Ascii("false"));
      case True => ok := PrintKeyword(Ascii("true"));
      case Number(v) => ok := PrintNumber(v);
      case String(s) => ok := PrintString(s);
      case Array(items) => ok := PrintArray(item);
      case Object(members) => ok := PrintObject(item);
    }

    /** One element of an array and the separator after it. */
    method PrintElement(item: Item, last: bool) returns (ok: bool)
      requires Valid() && CStrings(lib, item)
      modifies this, buffer
      ensures var text := ItemText(lib, item, format, old(depth)) + if last then [] else Separator(format);
        Appended(ok, text, |text| + 1)
      decreases item, 4
    {
      hide ItemText, CStrings;
      ok := AppendValue(item);
      if ok && !last {
        ok := Append(Separator(format), |Separator(format)| + 1, true);
      }
    }

    /** The loop over the elements of an array. */
    method PrintElements(items: seq<Item>) returns (ok: bool)
      requires Valid() && CStringItems(lib, items)
      modifies this, buffer
      ensures items == [] ==> ok && unchanged(this) && unchanged(buffer)
      ensures items != [] ==> var text := ItemsText(lib, items, format, old(depth)); Appended(ok, text, |text| + 1)
      decreases items, 0
    {
      hide ItemText, ItemsText, CStrings, CStringItems, Separator, Holds;
      NoElements(lib, format, depth);
      ghost var text, done, room := ItemsText(lib, items, format, depth), [], Capacity();
      ghost var kept := buffer[..offset];
      var i := 0;
      ok := true;
      assert items[0..] == items;
      assert kept + [] == kept;
      while i < |items|
        invariant 0 <= i <= |items| && Valid() && depth == old(depth)
        invariant Moves()
        invariant i == 0 ==> unchanged(this) && unchanged(buffer)
        invariant CStringItems(lib, items[i..]) && text == done + ItemsText(lib, items[i..], format, depth)
        invariant buffer[..offset] == kept + done
        invariant ok && (i > 0 ==> |kept| + |done| + 2 <= room)
      {
        ghost var x := ItemText(lib, items[i], format, depth) + if i + 1 == |items| then [] else Separator(format);
        ghost var rest := ItemsText(lib, items[i + 1..], format, depth);
        ItemsTextStep(lib, items, i, format, depth);
        ok := PrintElement(items[i], i + 1 == |items|);
        if !ok {
          return;
        }
        Regroup(kept, done, x, rest);
        done := done + x;
        i := i + 1;
      }
      assert items[i..] == [] && done + [] == done;
    }

    /** The outcome of all of a bracketed text but its end: it fails only when the whole `text` does not fit. */
    twostate predicate Opened(ok: bool, done: bytes, size: nat)
      requires old(Valid())
      reads this, buffer
    {
      && Valid() && Moves()
      && (ok ==> buffer[..offset] == old(buffer[..offset]) + done && depth == old(depth) + 1)
      && (!ok ==> old(offset) + size + 2 > old(Capacity()))
    }

    method OpenArray(items: seq<Item>) returns (ok: bool)
      requires Valid() && CStringItems(lib, items)
      modifies this, buffer
      ensures var done := ['[' as int] + ItemsText(lib, items, format, old(depth) + 1); Opened(ok, done, |done| + 1)
      decreases items, 1
    {
      hide ItemsText;
      ghost var kept := buffer[..offset];
      NoElements(lib, format, depth + 1);
      ok := Append(['[' as int], 1, false);
      if !ok {
        return;
      }
      ghost var text := ItemsText(lib, items, format, depth + 1);
      ghost var first := buffer[..offset];
      assert first + [] == first;
      depth := depth + 1;
      ok := PrintElements(items);
      assert ok ==> buffer[..offset] == first + text;
      Regroup(kept, ['[' as int], text, []);
    }

    /** The end of a bracketed text: the closing bracket, which is terminated but not counted into the offset. */
    method Close(close: bytes, ghost o: nat, ghost kept: bytes, ghost done: bytes) returns (ok: bool)
      requires Valid() && depth > 0 && buffer[..offset] == kept + done && o == |kept|
      modifies this`buffer, this`length, this`depth, buffer
      ensures Valid() && Moves()
      ensures ok <==> offset + |close| + 2 <= old(Capacity())
      ensures offset == o + |done|
      ensures ok ==> buffer.Length >= o && buffer[..o] == kept && Holds(o, done + close) && depth == old(depth) - 1
    {
      assert |buffer[..offset]| == o + |done|;
      ok := Finish(close, |close| + 1);
      if ok {
        depth := depth - 1;
        HoldsAll(o, kept, done, close);
      }
    }

    method PrintArray(item: Item) returns (ok: bool)
      requires Valid() && item.Array? && CStrings(lib, item)
      modifies this, buffer
      ensures Printed(ok, ItemText(lib, item, format, old(depth)))
      decreases item, 1
    {
      hide ItemsText;
      ghost var o, kept := offset, buffer[..offset];
      ghost var done := ['[' as int] + ItemsText(lib, item.items, format, depth + 1);
      ok := OpenArray(item.items);
      if ok {
        ok := Close([']' as int], o, kept, done);
      }
    }

    /** The indentation, the key and the colon of a member. */
    method PrintKey(key: bytes) returns (ok: bool)
      requires Valid() && NulFree(key)
      modifies this, buffer
      ensures var text :=
        (if format then Tabs(old(depth)) else []) + Quoted(key) + (if format then [':' as int, 9] else [':' as int]);
        Appended(ok, text, |text|)
    {
      hide Quoted;
      ghost var kept := buffer[..offset];
      ghost var tabs: bytes := if format then Tabs(depth) else [];
      if format {
        ok := Append(Tabs(depth), depth, false);
        if !ok {
          return;
        }
      }
      assert buffer[..offset] == kept + tabs;
      ok := AppendString(key);
      if !ok {
        return;
      }
      var colon: bytes := if format then [':' as int, 9] else [':' as int];
      ok := Append(colon, |colon|, false);
      Regroup(kept, tabs, Quoted(key), colon);
      Regroup(kept, tabs + Quoted(key), colon, []);
    }

    /** One member of an object, from its indentation to its line end. */
    method PrintMember(m: Member, last: bool) returns (ok: bool)
      requires Valid() && NulFree(m.key) && CStrings(lib, m.item)
      modifies this, buffer
      ensures var text := MemberText(lib, m, last, format, old(depth)); Appended(ok, text, |text| + 1)
      decreases m, 4
    {
      hide ItemText, CStrings, Quoted, Tabs;
      ghost var kept := buffer[..offset];
      ghost var key :=
        (if format then Tabs(depth) else []) + Quoted(m.key) + (if format then [':' as int, 9] else [':' as int]);
      ghost var value := ItemText(lib, m.item, format, depth);
      ok := PrintKey(m.key);
      if !ok {
        return;
      }
      ok := AppendValue(m.item);
      if !ok {
        return;
      }
      var end: bytes := (if last then [] else [',' as int]) + (if format then [10] else []);
      ok := Append(end, |end| + 1, true);
      MemberTextParts(lib, m, last, format, depth);
      Regroup(kept, key, value, end);
      Regroup(kept, key + value, end, []);
    }

    /** The loop over the members of an object. */
    method PrintMembers(members: seq<Member>) returns (ok: bool)
      requires Valid() && CStringMembers(lib, members)
      modifies this, buffer
      ensures members == [] ==> ok && unchanged(this) && unchanged(buffer)
      ensures members != [] ==>
        var text := MembersText(lib, members, format, old(depth)); Appended(ok, text, |text| + 1)
      decreases members, 0
    {
      hide MemberText, MembersText, CStrings, CStringMembers;
      NoMembers(lib, format, depth);
      ghost var text, done, room := MembersText(lib, members, format, depth), [], Capacity();
      ghost var kept := buffer[..offset];
      var i := 0;
      ok := true;
      assert members[0..] == members;
      assert kept + [] == kept;
      while i < |members|
        invariant 0 <= i <= |members| && Valid() && depth == old(depth)
        invariant Moves()
        invariant i == 0 ==> unchanged(this) && unchanged(buffer)
        invariant CStringMembers(lib, members[i..]) && text == done + MembersText(lib, members[i..], format, depth)
        invariant buffer[..offset] == kept + done
        invariant ok && (i > 0 ==> |kept| + |done| + 2 <= room)
      {
        ghost var x := MemberText(lib, members[i], i + 1 == |members|, format, depth);
        ghost var rest := MembersText(lib, members[i + 1..], format, depth);
        MembersTextStep(lib, members, i, format, depth);
        ok := PrintMember(members[i], i + 1 == |members|);
        if !ok {
          return;
        }
        Regroup(kept, done, x, rest);
        done := done + x;
        i := i + 1;
      }
      assert members[i..] == [] && done + [] == done;
    }

    method OpenObject(members: seq<Member>) returns (ok: bool)
      requires Valid() && CStringMembers(lib, members)
      modifies this, buffer
      ensures var done :=
        (if format then ['{' as int, 10] else ['{' as int]) + MembersText(lib, members, format, old(depth) + 1);
        Opened(ok, done, |done| + 1)
      decreases members, 1
    {
      hide MembersText;
      ghost var kept := buffer[..offset];
      NoMembers(lib, format, depth + 1);
      var open: bytes := if format then ['{' as int, 10] else ['{' as int];
      ok := Append(open, |open| + 1, false);
      if !ok {
        return;
      }
      ghost var text := MembersText(lib, members, format, depth + 1);
      ghost var first := buffer[..offset];
      assert first + [] == first;
      depth := depth + 1;
      ok := PrintMembers(members);
      assert ok ==> buffer[..offset] == first + text;
      Regroup(kept, open, text, []);
    }

    method PrintObject(item: Item) returns (ok: bool)
      requires Valid() && item.Object? && CStrings(lib, item)
      modifies this, buffer
      ensures Printed(ok, ItemText(lib, item, format, old(depth)))
      decreases item, 1
    {
      hide MembersText, Tabs;
      ghost var o, kept := offset, buffer[..offset];
      ghost var done :=
        (if format then ['{' as int, 10] else ['{' as int]) + MembersText(lib, item.members, format, depth + 1);
      ghost var text := ItemText(lib, item, format, depth);
      ok := OpenObject(item.members);
      if ok {
        var close: bytes := (if format then Tabs(depth - 1) else []) + ['}' as int];
        assert text == done + close;
        ok := Close(close, o, kept, done);
      }
    }
  }

  /**
   * cJSON_Print and cJSON_PrintUnformatted: the text, without its terminator, unless it does not fit into INT_MAX
   * bytes.
   */
  method Print(lib: Libc, item: Item, format: bool) returns (printed: Option<bytes>)
    requires CStrings(lib, item)
    ensures printed
      == if |ItemText(lib, item, format, 0)| + 2 <= 2147483647 then Some(ItemText(lib, item, format, 0)) else None
  {
    hide ItemText, CStrings;
    var buffer := new byte[256];
    var p := new PrintBuffer(buffer, false, format, lib);
    var ok := p.PrintValue(item);
    if !ok {
      return None;
    }
    TextNulFree(lib, item, format, 0);
    p.UpdateOffset(0, ItemText(lib, item, format, 0));
    return Some(p.buffer[..p.offset]);
  }

  /** cJSON_PrintPreallocated: succeeds exactly when the buffer has room for the text and two bytes more. */
  method PrintPreallocated(lib: Libc, item: Item, buffer: array<byte>, format: bool) returns (ok: bool)
    requires CStrings(lib, item) && buffer.Length <= INT_MAX
    modifies buffer
    ensures var text := ItemText(lib, item, format, 0);
      && (ok <==> |text| + 2 <= buffer.Length)
      && (ok ==> buffer[..|text|] == text && buffer[|text|] == 0)
  {
    hide ItemText, CStrings;
    var p := new PrintBuffer(buffer, true, format, lib);
    ok := p.PrintValue(item);
  }

  lemma MemberTextParts(k: Libc, m: Member, last: bool, format: bool, column: nat)
    ensures MemberText(k, m, last, format, column)
      == ((if format then Tabs(column) else []) + Quoted(m.key) + (if format then [':' as int, 9] else [':' as int]))
         + ItemText(k, m.item, format, column)
         + ((if last then [] else [',' as int]) + (if format then [10] else []))
  {
  }

  lemma ItemsTextStep(k: Libc, items: seq<Item>, i: nat, format: bool, column: nat)
    requires i < |items| && CStringItems(k, items[i..])
    ensures ItemsText(k, items[i..], format, column)
      == ItemText(k, items[i], format, column) + (if i + 1 == |items| then [] else Separator(format))
         + ItemsText(k, items[i + 1..], format, column)
    ensures CStrings(k, items[i]) && CStringItems(k, items[i + 1..])
  {
    assert items[i..][1..] == items[i + 1..];
  }

  lemma MembersTextStep(k: Libc, members: seq<Member>, i: nat, format: bool, column: nat)
    requires i < |members| && CStringMembers(k, members[i..])
    ensures MembersText(k, members[i..], format, column)
      == MemberText(k, members[i], i + 1 == |members|, format, column)
        + MembersText(k, members[i + 1..], format, column)
    ensures NulFree(members[i].key) && CStrings(k, members[i].item) && CStringMembers(k, members[i + 1..])
  {
    assert members[i..][1..] == members[i + 1..];
  }

  lemma Regroup(kept: bytes, done: bytes, x: bytes, rest: bytes)
    ensures kept + done + x == kept + (done + x) && done + (x + rest) == done + x + rest
  {
  }

  lemma NoMembers(k: Libc, format: bool, column: nat)
    ensures MembersText(k, [], format, column) == []
  {
  }

  lemma NoElements(k: Libc, format: bool, column: nat)
    ensures ItemsText(k, [], format, column) == []
  {
  }

  /** An int takes at most eleven bytes. */
  lemma DecimalFits(n: int)
    requires INT_MIN <= n <= INT_MAX
    ensures |Decimal(n)| <= 11
  {
    DigitsFit(if n < 0 then -n else n, 10);
  }

  lemma NumberFits(k: Libc, v: real)
    requires CStrings(k, Number(v))
    ensures |NumberText(k, v)| <= 25
  {
    if v == IntOf(v) as real {
      DecimalFits(IntOf(v));
    }
  }

  lemma {:induction false} DigitsFit(n: nat, k: nat)
    requires k > 0 && n < Pow10(k)
    ensures |Digits(n)| <= k
  {
    if n >= 10 {
      DigitsFit(n / 10, k - 1);
    }
  }

  function Pow10(k: nat): nat {
    if k == 0 then 1 else 10 * Pow10(k - 1)
  }

  /** A string that escaping does not lengthen is not changed by it. */
  lemma {:induction false} PlainText(s: bytes)
    ensures |EscapeAll(s)| >= |s| && (|EscapeAll(s)| == |s| ==> EscapeAll(s) == s)
  {
    if s != [] {
      PlainText(s[1..]);
    }
  }

  /** Taking one byte more into the escaped part. */
  lemma EscapeNext(s: bytes, i: nat)
    requires i < |s|
    ensures EscapeAll(s[..i + 1]) == EscapeAll(s[..i]) + Escape(s[i])
    ensures EscapeAll(s[i..]) == Escape(s[i]) + EscapeAll(s[i + 1..])
  {
    assert s[..i + 1] == s[..i] + [s[i]];
    EscapeConcat(s[..i], [s[i]]);
    assert EscapeAll([s[i]]) == Escape(s[i]);
    assert s[i..][1..] == s[i + 1..];
  }

  lemma {:induction false} EscapeConcat(s: bytes, t: bytes)
    ensures EscapeAll(s + t) == EscapeAll(s) + EscapeAll(t)
  {
    if s == [] {
      assert s + t == t;
    } else {
      assert (s + t)[1..] == s[1..] + t;
      EscapeConcat(s[1..], t);
    }
  }
}
