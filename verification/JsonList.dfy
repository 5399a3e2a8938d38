/** The child list of cJSON.c: linked both ways, with the head's `prev` pointing at the tail. */
module JsonList {

  /** What the two pointers of the member at `i` have to be. */
  ghost predicate LinkedAt(s: seq<ListItem>, i: nat)
    requires i < |s|
    reads s`next, s`prev
  {
    && s[i].next == (if i + 1 < |s| then s[i + 1] else null)
    && s[i].prev == (if i == 0 then s[|s| - 1] else s[i - 1])
  }

  predicate Distinct(s: seq<ListItem>) {
    forall i, j :: 0 <= i < j < |s| ==> s[i] != s[j]
  }

  /** Where the member at `j` is one of those whose pointers change when the member at `at` goes. */
  lemma Neighbours(s: seq<ListItem>, at: nat, j: nat)
    requires Distinct(s) && at < |s| && j < |s|
    ensures s[j] == s[at] <==> j == at
    ensures s[j] == s[0] <==> j == 0
    ensures s[j] == s[|s| - 1] <==> j == |s| - 1
    ensures at > 0 ==> (s[j] == s[at - 1] <==> j == at - 1)
    ensures at + 1 < |s| ==> (s[j] == s[at + 1] <==> j == at + 1)
  {
  }

  lemma OneIsDistinct(x: ListItem)
    ensures Distinct([x])
  {
  }

  lemma Different(s: seq<ListItem>, i: nat, j: nat)
    requires Distinct(s) && i < |s| && j < |s| && i != j
    ensures s[i] != s[j]
  {
  }

  lemma WithoutDistinct(s: seq<ListItem>, at: nat)
    requires Distinct(s) && at < |s|
    ensures Distinct(s[..at] + s[at + 1..]) && s[at] !in s[..at] + s[at + 1..]
  {
  }

  lemma ReplacedDistinct(s: seq<ListItem>, at: nat, x: ListItem)
    requires Distinct(s) && at < |s| && x !in s
    ensures Distinct(s[at := x]) && s[at] !in s[at := x]
  {
  }

  lemma InsertedDistinct(s: seq<ListItem>, at: nat, x: ListItem)
    requires Distinct(s) && at <= |s| && x !in s
    ensures Distinct(s[..at] + [x] + s[at..])
  {
  }

  ghost predicate Linked(child: ListItem?, s: seq<ListItem>)
    reads s`next, s`prev
  {
    && child == (if s == [] then null else s[0])
    && Distinct(s) && forall i :: 0 <= i < |s| ==> LinkedAt(s, i)
  }

  /** The neighbours of the member at `at`. */
  lemma Around(child: ListItem?, s: seq<ListItem>, at: nat)
    requires Linked(child, s) && at < |s|
    ensures child == s[0] && s[at].prev != null && s[at].prev in s && (s[at].next != null ==> s[at].next in s)
    ensures s[at].next != s[at] && (s[at] != child ==> s[at].prev != s[at])
  {
    assert LinkedAt(s, at);
  }

  /** Which items are the first and the last. */
  lemma Ends(child: ListItem?, s: seq<ListItem>, at: nat)
    requires Linked(child, s) && at < |s|
    ensures s[at] == child <==> at == 0
    ensures s[at].next == null <==> at == |s| - 1
    ensures at == |s| - 1 ==> child.prev == s[at]
  {
    assert LinkedAt(s, at) && LinkedAt(s, 0);
  }

  /** The pointers determine the list. */
  lemma LinkedIsUnique(child: ListItem?, s: seq<ListItem>, t: seq<ListItem>)
    requires Linked(child, s) && Linked(child, t)
    ensures s == t
  {
    var n := if |s| < |t| then |s| else |t|;
    SamePrefix(child, s, t, n);
    if n > 0 {
      assert LinkedAt(s, n - 1) && LinkedAt(t, n - 1);
    }
  }

  lemma {:induction false} SamePrefix(child: ListItem?, s: seq<ListItem>, t: seq<ListItem>, n: nat)
    requires Linked(child, s) && Linked(child, t) && n <= |s| && n <= |t|
    ensures s[..n] == t[..n]
  {
    if n > 0 {
      SamePrefix(child, s, t, n - 1);
      if n > 1 {
        assert LinkedAt(s, n - 2) && LinkedAt(t, n - 2);
        assert s[n - 2] == s[..n - 1][n - 2] == t[..n - 1][n - 2] == t[n - 2];
      }
      assert s[..n] == s[..n - 1] + [s[n - 1]] && t[..n] == t[..n - 1] + [t[n - 1]];
    }
  }

  /** The item behind the one at `a`. */
  lemma Follow(child: ListItem?, u: seq<ListItem>, a: nat, y: ListItem)
    requires Linked(child, u) && a < |u| && u[a].next == y
    ensures a + 1 < |u| && u[a + 1] == y
  {
    assert LinkedAt(u, a);
  }

  /** Where the `next` links lead along `s`, so they do in the list. */
  lemma {:induction false} Along(child: ListItem?, u: seq<ListItem>, a: nat, s: seq<ListItem>, lo: nat, hi: nat)
    requires Linked(child, u) && lo <= hi < |s| && a < |u| && u[a] == s[lo]
    requires forall i :: lo <= i < hi ==> s[i].next == s[i + 1]
    ensures a + (hi - lo) < |u| && u[a + (hi - lo)] == s[hi]
    decreases hi - lo
  {
    if lo < hi {
      Follow(child, u, a, s[lo + 1]);
      Along(child, u, a + 1, s, lo + 1, hi);
    }
  }

  lemma NotTwice(child: ListItem?, u: seq<ListItem>, a: nat, b: nat)
    requires Linked(child, u) && a < b < |u|
    ensures u[a] != u[b]
  {
  }

  lemma Head(child: ListItem?, u: seq<ListItem>)
    requires Linked(child, u) && child != null
    ensures u != [] && u[0] == child && u[0].prev == u[|u| - 1]
  {
    assert LinkedAt(u, 0);
  }

  lemma Before(child: ListItem?, u: seq<ListItem>, a: nat)
    requires Linked(child, u) && 0 < a < |u|
    ensures u[a].prev == u[a - 1]
  {
    assert LinkedAt(u, a);
  }

  lemma AtTheEnd(child: ListItem?, u: seq<ListItem>, a: nat)
    requires Linked(child, u) && a < |u| && u[a].next == null
    ensures a == |u| - 1
  {
    assert LinkedAt(u, a);
  }

  /** The tail that the head points at has no `next`, and each item of a list has a `prev`. */
  lemma TailEnds(child: ListItem, s: seq<ListItem>)
    requires Linked(child, s)
    ensures child.prev != null && child.prev.next == null && child.prev.prev != null
  {
    assert LinkedAt(s, 0) && LinkedAt(s, |s| - 1);
  }

  /** A head, or the item a head points at, without a `prev`. */
  lemma NoPrev(child: ListItem)
    requires child.prev == null || child.prev.prev == null
    ensures forall s :: !Linked(child, s)
  {
    forall s
      ensures !Linked(child, s)
    {
      if Linked(child, s) {
        TailEnds(child, s);
        assert false;
      }
    }
  }

  /** A head that points at an item which is not in its list. */
  lemma NoStranger(child: ListItem, t: seq<ListItem>)
    requires t != [] && child == t[0] && child.prev !in t && t[|t| - 1].next == null
    requires forall i :: 0 <= i < |t| - 1 ==> t[i].next == t[i + 1]
    ensures forall s :: !Linked(child, s)
  {
    hide Linked;
    forall s
      ensures !Linked(child, s)
    {
      if Linked(child, s) {
        Head(child, s);
        Along(child, s, 0, t, 0, |t| - 1);
        AtTheEnd(child, s, |t| - 1);
        assert false;
      }
    }
  }

  lemma NoTail(child: ListItem)
    requires child.prev != null && child.prev.next != null
    ensures forall s :: !Linked(child, s)
  {
    forall s
      ensures !Linked(child, s)
    {
      if Linked(child, s) {
        TailEnds(child, s);
        assert false;
      }
    }
  }

  /** The links after the child at `j` was put in front of the one at `at`. */
  ghost predicate AfterPut(child: ListItem?, s: seq<ListItem>, at: nat, j: nat)
    reads s`next, s`prev
  {
    && at < |s| && j < |s| && Distinct(s) && child == (if at == 0 then s[j] else s[0])
    && (forall i :: 0 <= i < |s| - 1 && i != j && i + 1 != at ==> s[i].next == s[i + 1])
    && s[j].next == (if at == j || at == j + 1 then s[j] else s[at])
    && (at > 0 && at != j + 1 ==> s[at - 1].next == s[j])
    && (j != |s| - 1 ==> s[|s| - 1].next == null)
    && (at != j && at > 0 ==> s[j].prev == s[at - 1])
  }

  lemma NoListAfterPut(child: ListItem?, s: seq<ListItem>, at: nat, j: nat, u: seq<ListItem>)
    requires AfterPut(child, s, at, j)
    ensures !Linked(child, u)
  {
    hide Linked, Distinct;
    if Linked(child, u) {
      Head(child, u);
      if at == j || at == j + 1 {
        Along(child, u, 0, s, 0, j);
        Follow(child, u, j, s[j]);
        NotTwice(child, u, j, j + 1);
        assert false;
      } else if at == 0 || j > at {
        PutBackwards(child, s, at, j, u);
      } else {
        PutForwards(child, s, at, j, u);
      }
    }
  }

  lemma PutBackwards(child: ListItem?, s: seq<ListItem>, at: nat, j: nat, u: seq<ListItem>)
    requires AfterPut(child, s, at, j) && at < j
    ensures !Linked(child, u)
  {
    hide Linked, Distinct;
    if Linked(child, u) {
      Head(child, u);
      if at > 0 {
        Along(child, u, 0, s, 0, at - 1);
        Follow(child, u, at - 1, s[j]);
      }
      Follow(child, u, at, s[at]);
      Along(child, u, at + 1, s, at, j);
      NotTwice(child, u, at, j + 1);
      assert false;
    }
  }

  lemma PutForwards(child: ListItem?, s: seq<ListItem>, at: nat, j: nat, u: seq<ListItem>)
    requires AfterPut(child, s, at, j) && j + 1 < at
    ensures !Linked(child, u)
  {
    hide Linked, Distinct;
    Different(s, at - 1, if j > 0 then j - 1 else |s| - 1);
    if Linked(child, u) {
      Head(child, u);
      Along(child, u, 0, s, 0, j);
      if j > 0 {
        Along(child, u, 0, s, 0, j - 1);
        Before(child, u, j);
        assert false;
      } else {
        Follow(child, u, 0, s[at]);
        Along(child, u, 1, s, at, |s| - 1);
        AtTheEnd(child, u, |s| - at);
        assert false;
      }
    }
  }

  /** The links after the child at `j` has taken the place of the one at `at`, which is gone. */
  ghost predicate AfterSwap(child: ListItem?, s: seq<ListItem>, at: nat, j: nat)
    reads s`next, s`prev
  {
    && at < |s| && j < |s| && at != j && Distinct(s) && child == (if at == 0 then s[j] else s[0])
    && (forall i :: 0 <= i < |s| - 1 && i != j && i != at && i + 1 != at ==> s[i].next == s[i + 1])
    && (j != |s| - 1 && at != |s| - 1 ==> s[|s| - 1].next == null)
    && s[at].prev == null
    && s[j].next == (if j == at + 1 || at == j + 1 then s[j] else if at + 1 < |s| then s[at + 1] else null)
    && (at > 0 && j != at - 1 ==> s[at - 1].next == if j == at + 1 then s[at] else s[j])
    && (j + 1 < at ==> s[j].prev == if j == 0 && at == |s| - 1 then s[j] else s[at - 1])
  }

  /** Only where the first child has taken the place of the last one is there a list: it is left alone. */
  lemma NoListAfterSwap(child: ListItem?, s: seq<ListItem>, at: nat, j: nat, u: seq<ListItem>)
    requires AfterSwap(child, s, at, j) && !(j == 0 && at == |s| - 1 > 1)
    ensures !Linked(child, u)
  {
    if j > at + 1 {
      SwapBackwards(child, s, at, j, u);
    } else if j + 1 < at {
      SwapForwards(child, s, at, j, u);
    } else {
      SwapNeighbour(child, s, at, j, u);
    }
  }

  lemma SwapNeighbour(child: ListItem?, s: seq<ListItem>, at: nat, j: nat, u: seq<ListItem>)
    requires AfterSwap(child, s, at, j) && (j == at + 1 || at == j + 1)
    ensures !Linked(child, u)
  {
    hide Linked, Distinct;
    if Linked(child, u) {
      Head(child, u);
      if at == 0 || at == j + 1 {
        if at > 0 {
          Along(child, u, 0, s, 0, j);
        }
        var a := if at > 0 then j else 0;
        Follow(child, u, a, s[j]);
        NotTwice(child, u, a, a + 1);
        assert false;
      } else {
        Along(child, u, 0, s, 0, at - 1);
        Follow(child, u, at - 1, s[at]);
        Before(child, u, at);
        assert false;
      }
    }
  }

  lemma SwapBackwards(child: ListItem?, s: seq<ListItem>, at: nat, j: nat, u: seq<ListItem>)
    requires AfterSwap(child, s, at, j) && at + 1 < j
    ensures !Linked(child, u)
  {
    hide Linked, Distinct;
    if Linked(child, u) {
      Head(child, u);
      if at > 0 {
        Along(child, u, 0, s, 0, at - 1);
        Follow(child, u, at - 1, s[j]);
      }
      Follow(child, u, at, s[at + 1]);
      Along(child, u, at + 1, s, at + 1, j);
      NotTwice(child, u, at, j);
      assert false;
    }
  }

  lemma SwapForwards(child: ListItem?, s: seq<ListItem>, at: nat, j: nat, u: seq<ListItem>)
    requires AfterSwap(child, s, at, j) && j + 1 < at && (j > 0 || at < |s| - 1)
    ensures !Linked(child, u)
  {
    hide Linked, Distinct;
    Different(s, at - 1, if j > 0 then j - 1 else |s| - 1);
    if Linked(child, u) {
      Head(child, u);
      Along(child, u, 0, s, 0, j);
      if j > 0 {
        Along(child, u, 0, s, 0, j - 1);
        Before(child, u, j);
        assert false;
      } else {
        Follow(child, u, 0, s[at + 1]);
        Along(child, u, 1, s, at + 1, |s| - 1);
        AtTheEnd(child, u, |s| - 1 - at);
        assert false;
      }
    }
  }

  /** Two lists that share an item are the same. */
  lemma SharedMeansSame(c: ListItem?, s: seq<ListItem>, d: ListItem?, t: seq<ListItem>, i: nat, j: nat)
    requires Linked(c, s) && Linked(d, t) && i < |s| && j < |t| && s[i] == t[j]
    ensures s == t
  {
    SameBehind(c, s, d, t, i, j);
    if i <= j {
      SameBefore(c, s, d, t, i, j);
    } else {
      SameBefore(d, t, c, s, j, i);
    }
  }

  lemma {:induction false} SameBehind(c: ListItem?, s: seq<ListItem>, d: ListItem?, t: seq<ListItem>, i: nat, j: nat)
    requires Linked(c, s) && Linked(d, t) && i < |s| && j < |t| && s[i] == t[j]
    ensures |s| - i == |t| - j && s[|s| - 1] == t[|t| - 1]
    decreases |s| - i
  {
    assert LinkedAt(s, i) && LinkedAt(t, j);
    if i + 1 < |s| {
      SameBehind(c, s, d, t, i + 1, j + 1);
    }
  }

  lemma OnlyHeadPointsAtTail(child: ListItem?, s: seq<ListItem>, j: nat)
    requires Linked(child, s) && j < |s| && s[j].prev == s[|s| - 1]
    ensures j == 0
  {
    assert LinkedAt(s, j);
  }

  lemma {:induction false} SameBefore(c: ListItem?, s: seq<ListItem>, d: ListItem?, t: seq<ListItem>, i: nat, j: nat)
    requires Linked(c, s) && Linked(d, t) && i <= j && i < |s| && j < |t| && s[i] == t[j]
    requires |s| - i == |t| - j && s[|s| - 1] == t[|t| - 1]
    ensures s == t
    decreases i
  {
    assert LinkedAt(s, i) && LinkedAt(t, j);
    if i == 0 {
      OnlyHeadPointsAtTail(d, t, j);
      LinkedIsUnique(c, s, t);
    } else {
      SameBefore(c, s, d, t, i - 1, j - 1);
    }
  }

  /** The links among the first `n` items of a chain that is being built; the others have none. */
  ghost predicate ChainedAt(s: seq<ListItem>, n: nat, j: nat)
    requires j < |s|
    reads s
  {
    && s[j].next == (if j + 1 < n && j + 1 < |s| then s[j + 1] else null)
    && s[j].prev == (if 0 < j < n then s[j - 1] else null)
  }

  /** How parse_array and parse_object chain the items they read, with null links, into the list of the children. */
  method Chain(items: seq<ListItem>) returns (head: ListItem?)
    requires Distinct(items) && forall i :: 0 <= i < |items| ==> ChainedAt(items, 0, i)
    modifies items
    ensures Linked(head, items)
  {
    head := null;
    var current: ListItem? := null;
    for i := 0 to |items|
      invariant if i == 0 then head == null && current == null else head == items[0] && current == items[i - 1]
      invariant forall j :: 0 <= j < |items| ==> ChainedAt(items, i, j)
    {
      label before:
      var newItem := items[i];
      if head == null {
        head := newItem;
      } else {
        current.next := newItem;
        newItem.prev := current;
      }
      current := newItem;
      ghost var n := i + 1;
      forall j | 0 <= j < |items|
        ensures ChainedAt(items, n, j)
      {
        assert old@before(ChainedAt(items, i, j));
        assert items[j] == items[i] ==> j == i;
        assert i > 0 && items[j] == items[i - 1] ==> j == i - 1;
      }
    }
    label chained:
    if head != null {
      head.prev := current;
    }
    forall j | 0 <= j < |items|
      ensures LinkedAt(items, j)
    {
      assert old@chained(ChainedAt(items, |items|, j));
    }
  }

  /** A cJSON item: it is a member of a list and the parent of one. */
  class ListItem {
    var next: ListItem?
    var prev: ListItem?
    var child: ListItem?
    ghost var items: seq<ListItem>

    /** cJSON_New_Item */
    constructor ()
      ensures Valid() && next == prev == child == null && items == []
    {
      next, prev, child, items := null, null, null, [];
    }

    /** The children are `items`, in this order. */
    ghost predicate Valid()
      reads this, items
    {
      Linked(child, items)
    }

    lemma ItemsAreDistinct()
      requires Valid()
      ensures Distinct(items) && (child == null <==> items == []) && (child != null ==> child == items[0])
    {
    }

    /** Of the children only the tail has no `next`. */
    lemma NextInList(item: ListItem)
      requires Valid() && item in items
      ensures item.next == null ==> item == child.prev
    {
      var at :| 0 <= at < |items| && items[at] == item;
      assert LinkedAt(items, at) && LinkedAt(items, 0);
    }

    /** get_array_item */
    method Get(index: nat) returns (found: ListItem?)
      requires Valid()
      ensures found == if index < |items| then items[index] else null
    {
      var i := index;
      found := child;
      while found != null && i > 0
        invariant 0 <= i <= index
        invariant found == if index - i < |items| then items[index - i] else null
      {
        assert LinkedAt(items, index - i);
        i := i - 1;
        found := found.next;
      }
    }

    /** cJSON_GetArraySize, before the count is cut to an int. */
    method Size() returns (size: nat)
      requires Valid()
      ensures size == |items|
    {
      size := 0;
      var c := child;
      while c != null
        invariant size <= |items| && c == if size < |items| then items[size] else null
        decreases |items| - size
      {
        assert LinkedAt(items, size);
        size := size + 1;
        c := c.next;
      }
    }

    /**
     * add_item_to_array. An item that is appended keeps its own `next`, unless it is the tail already and so comes to
     * point at itself. The list is sound afterwards exactly if it was empty, or the item is not in it and its `next`
     * was null; otherwise the links are those of no list at all.
     */
    method Add(item: ListItem?) returns (ok: bool)
      requires Valid()
      modifies this`child, this`items, item, items
      ensures ok <==> item != null && item != this
      ensures ok ==> items == old(items) + [item]
      ensures ok ==> (Valid() <==> old(items) == [] || (item !in old(items) && old(item.next) == null))
      ensures ok && !Valid() ==> forall s :: !Linked(child, s)
      ensures !ok ==> items == old(items) && Valid()
    {
      if item == null || item == this {
        return false;
      }
      ghost var before := items;
      var c := child;
      if c == null {
        child := item;
        item.prev := item;
        item.next := null;
        items := [item];
        assert LinkedAt(items, 0);
        return true;
      }
      hide Distinct;
      ItemsAreDistinct();
      if item in items {
        NextInList(item);
      }
      TailEnds(child, items);
      assert LinkedAt(before, 0);
      if c.prev != null {
        c.prev.next := item;
        item.prev := c.prev;
        child.prev := item;
      }
      items := before + [item];
      if item in before || old(item.next) != null {
        NoTail(child);
      } else {
        InsertedDistinct(before, |before|, item);
        assert before[..|before|] + [item] + before[|before|..] == items;
        forall i | 0 <= i < |items|
          ensures LinkedAt(items, i)
        {
          if i < |before| {
            assert old(LinkedAt(before, i));
            Neighbours(before, |before| - 1, i);
          }
        }
      }
      return true;
    }

    /** The links of `n` now lead past `item`. */
    twostate predicate LedPast(new item: ListItem, new n: ListItem)
      requires old(allocated(item)) && old(allocated(n))
      reads n
    {
      && n.next == (if item != old(child) && n == old(item.prev) then old(item.next) else old(n.next))
      && n.prev ==
           (if n == old(item.next) || (n == old(child) && old(item.next) == null) then old(item.prev) else old(n.prev))
    }

    /** The links among the children of this item and of `owner` now lead past `item`. */
    twostate predicate Bypassed(new item: ListItem, new owner: ListItem)
      requires old(allocated(owner)) && item in old(owner.items)
      reads this, items, owner, owner.items
    {
      && items == old(items) && owner.items == old(owner.items)
      && child == (if item == old(child) then old(item.next) else old(child))
      && item.next == null && item.prev == null
      && forall n {:trigger LedPast(item, n)} :: n in items + owner.items && n != item ==> LedPast(item, n)
    }

    /** What is left of the children of `owner`, where `item` was not the first or last child of another parent. */
    twostate lemma BypassedLinks(new owner: ListItem, new at: nat)
      requires old(allocated(owner)) && old(Valid() && owner.Valid())
      requires at < |old(owner.items)| && Bypassed(old(owner.items)[at], owner)
      requires owner == this || (0 < at < |old(owner.items)| - 1 && old(child) !in old(owner.items))
      requires owner.child == if owner == this then child else old(owner.child)
      ensures Linked(owner.child, owner.items[..at] + owner.items[at + 1..])
    {
      hide Distinct;
      var s := old(owner.items);
      var t := s[..at] + s[at + 1..];
      WithoutDistinct(s, at);
      Neighbours(s, at, at);
      assert old(LinkedAt(s, at));
      forall i | 0 <= i < |t|
        ensures LinkedAt(t, i)
      {
        var j := if i < at then i else i + 1;
        assert old(LinkedAt(s, j));
        Neighbours(s, at, j);
        assert LedPast(s[at], s[j]);
      }
    }

    /** The links around an item that goes. */
    method Bypass(item: ListItem, ghost owner: ListItem)
      requires item in owner.items && (child != null ==> child in items) && owner.child != null
        && owner.child in owner.items
      requires item != child ==> item.prev != null && item.prev in owner.items
      requires item.next != null ==> item.next in owner.items
      requires item.next != item && (item != owner.child ==> item.prev != item)
      requires item == child || item.next != null || child != null
      modifies this`child, items`next, items`prev, owner.items`next, owner.items`prev
      ensures Bypassed(item, owner)
    {
      if item != child {
        item.prev.next := item.next;
      }
      if item.next != null {
        item.next.prev := item.prev;
      }
      if item == child {
        child := item.next;
      } else if item.next == null {
        child.prev := item.prev;
      }
      item.prev := null;
      item.next := null;
    }

    /** The links after `x` was put in front of `after`, whether or not `x` was a child already. */
    twostate predicate PutBefore(new after: ListItem, new x: ListItem)
      requires after in old(items)
      reads this, x, items
    {
      var q := if x == after then x else old(after.prev);
      && items == old(items) && child == (if after == old(child) then x else old(child))
      && x.next == (if after != old(child) && q == x then x else after)
      && after.prev == x && (x != after ==> x.prev == old(after.prev))
      && forall n :: n in items && n != x ==>
        && n.next == (if after != old(child) && n == q then x else old(n.next))
        && (n != after ==> n.prev == old(n.prev))
    }

    twostate lemma PutBeforeLinks(new at: nat, new x: ListItem)
      requires old(Valid()) && at < |old(items)| && x !in old(items) && PutBefore(old(items)[at], x)
      ensures Linked(child, items[..at] + [x] + items[at..])
    {
      hide Distinct;
      var s := old(items);
      var t := s[..at] + [x] + s[at..];
      InsertedDistinct(s, at, x);
      Neighbours(s, at, at);
      assert old(LinkedAt(s, at)) && old(LinkedAt(s, 0));
      forall i | 0 <= i < |t|
        ensures LinkedAt(t, i)
      {
        if i != at {
          var j := if i < at then i else i - 1;
          assert old(LinkedAt(s, j));
          Neighbours(s, at, j);
        }
      }
    }

    twostate lemma PutTwiceLinks(new at: nat, new j: nat, new i: nat)
      requires old(Valid()) && at < |old(items)| && j < |old(items)| && PutBefore(old(items)[at], old(items)[j])
      requires i < |old(items)| && i != j
      ensures var s := old(items);
        s[i].next == if at > 0 && i + 1 == at then s[j] else if i + 1 < |s| then s[i + 1] else null
    {
      hide Distinct;
      var s := old(items);
      assert old(LinkedAt(s, at)) && old(LinkedAt(s, i));
      Neighbours(s, at, at);
      Neighbours(s, at, i);
      Neighbours(s, j, i);
    }

    /** A child that is put in front of another, or of itself, leaves links of no list. */
    twostate lemma PutTwice(new at: nat, new j: nat)
      requires old(Valid()) && at < |old(items)| && j < |old(items)| && PutBefore(old(items)[at], old(items)[j])
      ensures forall u :: !Linked(child, u)
    {
      hide Distinct;
      var s := old(items);
      assert old(LinkedAt(s, at));
      Neighbours(s, at, j);
      Neighbours(s, at, at);
      forall i | 0 <= i < |s| && i != j
        ensures s[i].next == if at > 0 && i + 1 == at then s[j] else if i + 1 < |s| then s[i + 1] else null
      {
        PutTwiceLinks(at, j, i);
      }
      if at > 0 && at != j + 1 {
        PutTwiceLinks(at, j, at - 1);
      }
      if j != |s| - 1 {
        PutTwiceLinks(at, j, |s| - 1);
      }
      assert s[j].next == (if at == j || at == j + 1 then s[j] else s[at]);
      assert AfterPut(child, s, at, j);
      forall u
        ensures !Linked(child, u)
      {
        NoListAfterPut(child, s, at, j, u);
      }
    }

    /** A list that has an item this one does not have shares nothing with it. */
    lemma NothingShared(owner: ListItem, item: ListItem)
      requires Valid() && owner.Valid() && item in owner.items && item !in items
      ensures forall n :: n in owner.items ==> n !in items
    {
      forall n | n in owner.items
        ensures n !in items
      {
        if n in items {
          var i :| 0 <= i < |items| && items[i] == n;
          var j :| 0 <= j < |owner.items| && owner.items[j] == n;
          SharedMeansSame(child, items, owner.child, owner.items, i, j);
          assert false;
        }
      }
    }

    /** What a call with a child of another parent does to this list: if it was the last child, the tail is lost. */
    twostate lemma BypassedElsewhere(new owner: ListItem, new at: nat)
      requires old(allocated(owner)) && old(Valid() && owner.Valid()) && at < |old(owner.items)|
      requires Bypassed(old(owner.items)[at], owner) && forall n :: n in old(owner.items) ==> n !in old(items)
      requires at == |old(owner.items)| - 1 ==> child != null
      ensures if at < |old(owner.items)| - 1 then Linked(child, items) else forall u :: !Linked(child, u)
    {
      hide Distinct;
      var s := old(owner.items);
      var x := s[at];
      assert old(LinkedAt(s, at)) && x in s && old(x.prev) in s && (old(x.next) == null || old(x.next) in s);
      assert old(x.next) == null <==> at == |s| - 1;
      if at < |s| - 1 {
        forall i | 0 <= i < |items|
          ensures LinkedAt(items, i)
        {
          assert items[i] in items && old(LinkedAt(items, i)) && LedPast(x, items[i]);
        }
      } else {
        forall i | 0 <= i < |items| - 1
          ensures items[i].next == items[i + 1]
        {
          assert items[i] in items && old(LinkedAt(items, i)) && LedPast(x, items[i]);
        }
        assert child == items[0] && child in items && LedPast(x, child);
        var last := items[|items| - 1];
        assert last in items && old(LinkedAt(items, |items| - 1)) && LedPast(x, last);
        NoStranger(child, items);
      }
    }

    /** And to the list of the other parent, if it was the first child or the last. */
    twostate lemma BypassedEnd(new owner: ListItem, new at: nat)
      requires old(allocated(owner)) && old(Valid() && owner.Valid()) && at < |old(owner.items)|
      requires Bypassed(old(owner.items)[at], owner) && forall n :: n in old(owner.items) ==> n !in old(items)
      requires owner.child == old(owner.child) && (at == 0 || at == |old(owner.items)| - 1)
      ensures forall u :: !Linked(owner.child, u)
    {
      var s := old(owner.items);
      assert old(LinkedAt(s, 0)) && old(LinkedAt(s, at));
      assert s[0] in owner.items && (at > 0 ==> LedPast(s[at], s[0]));
      NoPrev(s[0]);
    }

    /**
     * cJSON_DetachItemViaPointer. The item may be a child of this parent or of `owner`, another one, which the original
     * does not notice: then both lists are sound afterwards exactly if it was neither the first child nor the last one.
     * For the last child, this list must not be empty, as the original follows its head.
     */
    method Detach(item: ListItem?, ghost owner: ListItem, ghost at: nat) returns (detached: ListItem?)
      requires Valid() && owner.Valid() && (item == null || owner == this || item !in items)
      requires item == null || (item.prev == null && item !in items) || (at < |owner.items| && owner.items[at] == item)
      requires item != null && item !in items && item.prev != null && item.next == null ==> child != null
      modifies this`child, this`items, owner`items, {item}`next, {item}`prev
      modifies items`next, items`prev, owner.items`next, owner.items`prev
      ensures detached == if item == null || (item !in old(items) && old(item.prev) == null) then null else item
      ensures detached == null ==> items == old(items) && owner.items == old(owner.items) && Valid() && owner.Valid()
      ensures detached != null ==> detached.next == null && detached.prev == null
      ensures detached != null && owner == this ==>
        Valid() && items == old(items)[..at] + old(items)[at + 1..] && detached !in items
      ensures detached != null && owner != this ==>
        && items == old(items) && (Valid() <==> at < |old(owner.items)| - 1)
        && (Valid() || forall s :: !Linked(child, s))
        && if 0 < at < |old(owner.items)| - 1
           then owner.Valid() && owner.items == old(owner.items)[..at] + old(owner.items)[at + 1..]
           else forall s :: !Linked(owner.child, s)
    {
      hide Linked, LinkedAt, Distinct, Bypassed;
      ItemsAreDistinct();
      owner.ItemsAreDistinct();
      if at < |owner.items| {
        Around(owner.child, owner.items, at);
      }
      if item == null || (item != child && item.prev == null) {
        return null;
      }
      ghost var before := owner.items;
      WithoutDistinct(before, at);
      Ends(owner.child, before, at);
      if owner != this {
        NothingShared(owner, item);
      }
      Bypass(item, owner);
      if owner != this {
        BypassedElsewhere(owner, at);
      }
      if owner == this || 0 < at < |before| - 1 {
        BypassedLinks(owner, at);
        owner.items := before[..at] + before[at + 1..];
      } else {
        BypassedEnd(owner, at);
      }
      return item;
    }

    /** The links of an item that goes in front of the member `after`. */
    method LinkBefore(after: ListItem, newItem: ListItem)
      requires child != null && after in items && child in items
      requires after.prev != null && after.prev in items && (after != child ==> after.prev != after)
      modifies this`child, newItem`next, newItem`prev, items`next, items`prev
      ensures PutBefore(after, newItem)
    {
      newItem.next := after;
      newItem.prev := after.prev;
      after.prev := newItem;
      if after == child {
        child := newItem;
      } else {
        newItem.prev.next := newItem;
      }
    }

    /**
     * cJSON_InsertItemInArray. Past the end it appends, with the same condition for a sound list as `Add`; elsewhere
     * the list is sound afterwards exactly if the item was not in it.
     */
    method Insert(which: int, newItem: ListItem?) returns (ok: bool)
      requires Valid()
      modifies this`child, this`items, newItem, items
      ensures ok <==> which >= 0 && newItem != null && (which < |old(items)| || newItem != this)
      ensures ok ==>
        items ==
          if which < |old(items)| then old(items)[..which] + [newItem] + old(items)[which..]
          else old(items) + [newItem]
      ensures !ok ==> items == old(items) && Valid()
      ensures ok && newItem != null ==>
        (Valid() <==>
          old(items) == [] || (newItem !in old(items) && (which < |old(items)| || old(newItem.next) == null)))
      ensures ok && !Valid() ==> forall s :: !Linked(child, s)
    {
      hide Linked, Distinct;
      if which < 0 || newItem == null {
        return false;
      }
      var after := Get(which);
      if after == null {
        ok := Add(newItem);
        return;
      }
      Around(child, items, which);
      if after != child && after.prev == null {
        return false;
      }
      ghost var before := items;
      LinkBefore(after, newItem);
      if newItem in before {
        ghost var j :| 0 <= j < |before| && before[j] == newItem;
        PutTwice(which, j);
      } else {
        PutBeforeLinks(which, newItem);
      }
      items := before[..which] + [newItem] + before[which..];
      return true;
    }

    /** The links of `n` now lead to `x` in the place of `item`. */
    twostate predicate LedTo(new item: ListItem, new x: ListItem, new n: ListItem)
      requires old(allocated(item)) && old(allocated(n))
      reads n
    {
      && n.next == (if item != old(child) && n == old(item.prev) && old(item.next) != x then x else old(n.next))
      && n.prev ==
           (if n == old(item.next) || (n == old(child) && old(item.next) == null && old(item.prev) != x) then x
            else old(n.prev))
    }

    /** The links of `x`, which stands in the place of `item` now. */
    twostate predicate Placed(new item: ListItem, new x: ListItem)
      requires old(allocated(item))
      reads x
    {
      var itself := item != old(child) && (old(item.next) == x || old(item.prev) == x);
      && x.next == (if itself then x else old(item.next))
      && x.prev ==
           (if old(item.next) == x || (item == old(child) && old(item.prev) == item) then x
            else if item != old(child) && !itself && old(item.next) == null && x == old(child) then x
            else old(item.prev))
    }

    /** The links among the children of this item and of `owner` now lead to `x` in the place of `item`. */
    twostate predicate Supplanted(new item: ListItem, new x: ListItem, new owner: ListItem)
      requires old(allocated(owner)) && item in old(owner.items)
      reads this, items, owner, owner.items, x
    {
      && items == old(items) && owner.items == old(owner.items)
      && child == (if item == old(child) then x else old(child))
      && Placed(item, x) && item.next == null && item.prev == null
      && forall n {:trigger LedTo(item, x, n)} ::
        n in items + owner.items && n != item && n != x ==> LedTo(item, x, n)
    }

    /** The children of `owner`, if `x` was none of them and `item` not the first or last child of another parent. */
    twostate lemma SupplantedLinks(new owner: ListItem, new at: nat, new x: ListItem)
      requires old(allocated(owner)) && old(Valid() && owner.Valid())
      requires at < |old(owner.items)| && x !in old(owner.items) && Supplanted(old(owner.items)[at], x, owner)
      requires owner == this || (0 < at < |old(owner.items)| - 1 && old(child) !in old(owner.items))
      requires owner.child == if owner == this then child else old(owner.child)
      ensures Linked(owner.child, owner.items[at := x])
    {
      hide Distinct;
      var s := old(owner.items);
      ReplacedDistinct(s, at, x);
      Neighbours(s, at, at);
      assert old(LinkedAt(s, at));
      var t := s[at := x];
      forall i | 0 <= i < |t|
        ensures LinkedAt(t, i)
      {
        assert old(LinkedAt(s, i));
        Neighbours(s, at, i);
        if i != at {
          assert s[i] in s && LedTo(s[at], x, s[i]);
        }
      }
    }

    /** What a call with a child of another parent does to this list: if it was the last child, the tail is lost. */
    twostate lemma SupplantedElsewhere(new owner: ListItem, new at: nat, new x: ListItem)
      requires old(allocated(owner)) && old(Valid() && owner.Valid()) && at < |old(owner.items)|
      requires Supplanted(old(owner.items)[at], x, owner) && forall n :: n in old(owner.items) ==> n !in old(items)
      requires child != null && x !in old(items) && x !in old(owner.items)
      ensures if at < |old(owner.items)| - 1 then Linked(child, items) else forall u :: !Linked(child, u)
    {
      hide Distinct;
      var s := old(owner.items);
      var y := s[at];
      assert old(LinkedAt(s, at)) && y in s && old(y.prev) in s && (old(y.next) == null || old(y.next) in s);
      if at < |s| - 1 {
        forall i | 0 <= i < |items|
          ensures LinkedAt(items, i)
        {
          assert items[i] in items && old(LinkedAt(items, i)) && LedTo(y, x, items[i]);
        }
      } else {
        forall i | 0 <= i < |items| - 1
          ensures items[i].next == items[i + 1]
        {
          assert items[i] in items && old(LinkedAt(items, i)) && LedTo(y, x, items[i]);
        }
        assert child == items[0] && child in items && LedTo(y, x, child);
        var last := items[|items| - 1];
        assert last in items && old(LinkedAt(items, |items| - 1)) && LedTo(y, x, last);
        NoStranger(child, items);
      }
    }

    /** And to the list of the other parent, if it was the first child or the last. */
    twostate lemma SupplantedEnd(new owner: ListItem, new at: nat, new x: ListItem)
      requires old(allocated(owner)) && old(Valid() && owner.Valid()) && at < |old(owner.items)|
      requires Supplanted(old(owner.items)[at], x, owner) && forall n :: n in old(owner.items) ==> n !in old(items)
      requires x !in old(owner.items) && owner.child == old(owner.child) && (at == 0 || at == |old(owner.items)| - 1)
      ensures forall u :: !Linked(owner.child, u)
    {
      var s := old(owner.items);
      assert old(LinkedAt(s, 0)) && old(LinkedAt(s, at));
      assert s[0] in owner.items && (at > 0 ==> LedTo(s[at], x, s[0]));
      NoPrev(s[0]);
    }

    twostate lemma SwappedLinks(new at: nat, new j: nat, new i: nat)
      requires old(Valid()) && at < |old(items)| && j < |old(items)| && at != j
      requires Supplanted(old(items)[at], old(items)[j], this) && i < |old(items)| && i != j && i != at
      ensures var s := old(items);
        s[i].next ==
          if i + 1 == at && j != at + 1 then s[j] else if i + 1 < |s| then s[i + 1] else null
    {
      hide Distinct;
      var s := old(items);
      assert old(LinkedAt(s, at)) && old(LinkedAt(s, i));
      Neighbours(s, at, at);
      Neighbours(s, at, i);
      Neighbours(s, at, j);
      Different(s, i, j);
      Different(s, i, at);
      assert s[i] in s && LedTo(s[at], s[j], s[i]);
    }

    /** A child in the place of another is no list, but where the first one replaces the last of three or more. */
    twostate lemma Swapped(new at: nat, new j: nat)
      requires old(Valid()) && at < |old(items)| && j < |old(items)| && at != j
      requires Supplanted(old(items)[at], old(items)[j], this)
      ensures if j == 0 && at == |old(items)| - 1 > 1 then Linked(child, [old(items)[j]])
              else forall u :: !Linked(child, u)
    {
      hide Distinct;
      var s := old(items);
      assert old(LinkedAt(s, at));
      Neighbours(s, at, j);
      Neighbours(s, at, at);
      forall i | 0 <= i < |s| && i != j && i != at
        ensures s[i].next ==
          if i + 1 == at && j != at + 1 then s[j] else if i + 1 < |s| then s[i + 1] else null
      {
        SwappedLinks(at, j, i);
      }
      if at > 0 && j != at - 1 {
        SwappedLinks(at, j, at - 1);
      }
      if j != |s| - 1 && at != |s| - 1 {
        SwappedLinks(at, j, |s| - 1);
      }
      assert AfterSwap(child, s, at, j);
      if j == 0 && at == |s| - 1 > 1 {
        OneIsDistinct(s[j]);
        assert LinkedAt([s[j]], 0);
      } else {
        forall u
          ensures !Linked(child, u)
        {
          NoListAfterSwap(child, s, at, j, u);
        }
      }
    }

    /** The links of an item that takes the place of another, and the links that pointed at that one. */
    method Supplant(item: ListItem, replacement: ListItem, ghost owner: ListItem)
      requires child != null && child in items && item in owner.items && item != replacement
      requires item.prev != null && item.prev in owner.items && (item.next != null ==> item.next in owner.items)
      requires item.next != item && (item != owner.child ==> item.prev != item) && (owner == this || item !in items)
      requires item != child || item.next != null || item.prev == item
      modifies this`child, {item, replacement}`next, {item, replacement}`prev
      modifies items`next, items`prev, owner.items`next, owner.items`prev
      ensures Supplanted(item, replacement, owner)
    {
      Adopt(item, replacement);
      if child == item {
        if child.prev == child {
          replacement.prev := replacement;
        }
        child := replacement;
      } else {
        TakeOver(replacement);
      }
      item.next := null;
      item.prev := null;
    }

    /** The links of the replacement and of the neighbour behind. */
    method Adopt(item: ListItem, replacement: ListItem)
      requires item != replacement && item.next != item
      modifies replacement`next, {replacement, item.next}`prev
      ensures replacement.next == old(item.next)
      ensures replacement.prev == if old(item.next) == replacement then replacement else old(item.prev)
      ensures old(item.next) != null ==> old(item.next).prev == replacement
    {
      replacement.next := item.next;
      replacement.prev := item.prev;
      if replacement.next != null {
        replacement.next.prev := replacement;
      }
    }

    /** The links of the neighbour in front and of the head, for an item that is not the first child. */
    method TakeOver(replacement: ListItem)
      requires child != null && replacement.prev != null
      modifies {replacement.prev}`next, child`prev
      ensures old(replacement.prev).next == replacement
      ensures child.prev ==
        if old(replacement.next) == null && old(replacement.prev) != replacement then replacement else old(child.prev)
    {
      if replacement.prev != null {
        replacement.prev.next := replacement;
      }
      if replacement.next == null {
        child.prev := replacement;
      }
    }

    /**
     * cJSON_ReplaceItemViaPointer, where deleting the old item is left out. The replacement may be a child already:
     * then there is no list afterwards, except that the first child stays alone if it replaces the last of three or
     * more. And the item may be a child of `owner`, another parent: then both lists are sound afterwards exactly if it
     * was neither the first child nor the last one.
     */
    method Replace(item: ListItem?, replacement: ListItem?, ghost owner: ListItem, ghost at: nat) returns (ok: bool)
      requires Valid() && owner.Valid()
      requires item == null || child == null || (at < |owner.items| && owner.items[at] == item)
      requires owner == this || item == null || child == null || item !in items
      modifies this`child, this`items, owner`items, {item, replacement}`next, {item, replacement}`prev
      modifies items`next, items`prev, owner.items`next, owner.items`prev
      ensures ok <==> old(child) != null && replacement != null && item != null
      ensures !ok || replacement == item ==>
        items == old(items) && owner.items == old(owner.items) && Valid() && owner.Valid()
      ensures ok && replacement != item ==> item.next == null && item.prev == null
      ensures ok && replacement != item && owner == this && replacement !in old(items) ==>
        Valid() && items == old(items)[at := replacement] && item !in items
      ensures ok && replacement != item && owner == this && replacement in old(items) ==>
        if replacement == old(child) && at == |old(items)| - 1 > 1 then Valid() && items == [replacement]
        else forall u :: !Linked(child, u)
      ensures ok && replacement != item && owner != this && replacement !in old(items) + old(owner.items) ==>
        && items == old(items) && (Valid() <==> at < |old(owner.items)| - 1)
        && (Valid() || forall u :: !Linked(child, u))
        && if 0 < at < |old(owner.items)| - 1
           then owner.Valid() && owner.items == old(owner.items)[at := replacement]
           else forall u :: !Linked(owner.child, u)
    {
      hide Linked, LinkedAt, Distinct, Supplanted;
      if child == null || replacement == null || item == null {
        return false;
      }
      if replacement == item {
        return true;
      }
      ghost var before := owner.items;
      ItemsAreDistinct();
      owner.ItemsAreDistinct();
      Around(owner.child, before, at);
      Ends(owner.child, before, at);
      if owner != this {
        NothingShared(owner, item);
      }
      Supplant(item, replacement, owner);
      if owner == this && replacement in before {
        ghost var j :| 0 <= j < |before| && before[j] == replacement;
        Swapped(at, j);
        if j == 0 && at == |before| - 1 > 1 {
          items := [replacement];
        }
      } else if replacement !in items && replacement !in before {
        if owner != this {
          SupplantedElsewhere(owner, at, replacement);
        }
        if owner == this || 0 < at < |before| - 1 {
          ReplacedDistinct(before, at, replacement);
          SupplantedLinks(owner, at, replacement);
          owner.items := before[at := replacement];
        } else {
          SupplantedEnd(owner, at, replacement);
        }
      }
      return true;
    }

    /** cJSON_DetachItemFromArray */
    method DetachAt(which: int) returns (detached: ListItem?)
      requires Valid()
      modifies this`child, this`items, items
      ensures Valid()
      ensures detached == if 0 <= which < |old(items)| then old(items)[which] else null
      ensures items == if 0 <= which < |old(items)| then old(items)[..which] + old(items)[which + 1..] else old(items)
      ensures detached != null ==> detached !in items && detached.next == null && detached.prev == null
    {
      if which < 0 {
        return null;
      }
      var item := Get(which);
      detached := Detach(item, this, which);
    }

    /** cJSON_ReplaceItemInArray */
    method ReplaceAt(which: int, newItem: ListItem?) returns (ok: bool)
      requires Valid()
      modifies this`child, this`items, {newItem}`next, {newItem}`prev, items`next, items`prev
      ensures ok <==> 0 <= which < |old(items)| && newItem != null
      ensures !ok ==> items == old(items) && Valid()
      ensures ok && newItem !in old(items) ==> Valid() && items == old(items)[which := newItem]
      ensures ok && newItem in old(items) ==>
        if newItem == old(items)[which] then Valid() && items == old(items)
        else if newItem == old(items)[0] && which == |old(items)| - 1 > 1 then Valid() && items == [newItem]
        else forall u :: !Linked(child, u)
    {
      if which < 0 {
        return false;
      }
      ItemsAreDistinct();
      var item := Get(which);
      ok := Replace(item, newItem, this, which);
    }
  }

  /** A new list of one new child or of two. */
  method NewList(two: bool) returns (parent: ListItem)
    ensures fresh(parent) && parent.Valid() && |parent.items| == (if two then 2 else 1) && parent !in parent.items
    ensures forall i :: 0 <= i < |parent.items| ==> fresh(parent.items[i])
    ensures two ==> parent.items[0].next == parent.items[1]
  {
    parent := new ListItem();
    var a := new ListItem();
    var ok := parent.Add(a);
    if two {
      var b := new ListItem();
      ok := parent.Add(b);
      assert LinkedAt(parent.items, 0);
    }
  }

  /** Two lists, and what appending a child of the first to the second does: the second is no list any more. */
  method AddTwice() returns (first: ListItem, second: ListItem)
    ensures |first.items| == 2 && |second.items| == 2 && second.items[1] == first.items[0]
    ensures forall s :: !Linked(second.child, s)
  {
    hide Linked;
    first := NewList(true);
    var a := first.Get(0);
    second := NewList(false);
    assert first !in second.items && a !in second.items;
    var ok := second.Add(a);
  }

  /**
   * A list, and what appending its own last child again does: that child has no `next`, and yet the list never ends.
   */
  method AddTail() returns (list: ListItem)
    ensures |list.items| == 2 && list.items[1] == list.items[0]
    ensures forall s :: !Linked(list.child, s)
  {
    hide Linked;
    list := NewList(false);
    var tail := list.Get(0);
    assert tail in list.items && tail != list;
    var ok := list.Add(tail);
  }
}
