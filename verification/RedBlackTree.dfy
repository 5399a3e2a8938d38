module RedBlackTree {

  class Node {
    const key: int
    var left: Node?
    var right: Node?
    var parent: Node?
    var red: bool
    ghost var lo: int
    ghost var pos: int
    ghost var hi: int
    ghost var bh: nat

    constructor (key: int)
      ensures this.key == key
    {
      this.key := key;
      left, right, parent, red := null, null, null, false;
    }
  }

  /** The three-way comparison the tree is generated with. */
  function Compare(a: int, b: int): int {
    if a < b then -1 else if a == b then 0 else 1
  }

  ghost predicate Sorted(s: seq<Node>) {
    forall i, j :: 0 <= i < j < |s| ==> s[i].key < s[j].key
  }

  ghost function Pow2(k: nat): (p: nat)
    ensures p > 0
  {
    if k == 0 then 1 else 2 * Pow2(k - 1)
  }

  lemma {:induction false} Pow2Mono(j: nat, k: nat)
    requires j <= k
    ensures Pow2(j) <= Pow2(k)
  {
    if j < k {
      Pow2Mono(j, k - 1);
    }
  }

  ghost function BhOf(n: Node?): nat
    reads n
  {
    if n == null then 0 else n.bh + (if n.red then 0 else 1)
  }

  ghost predicate IsRed(n: Node?)
    reads n
  {
    n != null && n.red
  }

  // ---- Trees as values: the textbook meaning of the links ----

  datatype Shape = Nil | Bin(left: Shape, node: Node, red: bool, right: Shape)

  ghost function InOrder(s: Shape): seq<Node> {
    match s
    case Nil => []
    case Bin(l, n, _, r) => InOrder(l) + [n] + InOrder(r)
  }

  ghost function Size(s: Shape): nat {
    match s
    case Nil => 0
    case Bin(l, _, _, r) => Size(l) + 1 + Size(r)
  }

  ghost function Max(a: nat, b: nat): nat {
    if a < b then b else a
  }

  ghost function Height(s: Shape): nat {
    match s
    case Nil => 0
    case Bin(l, _, _, r) => 1 + Max(Height(l), Height(r))
  }

  /** The numbers of black nodes on the paths from the root down to a missing child. */
  ghost function BlackCounts(s: Shape): set<nat> {
    match s
    case Nil => {0}
    case Bin(l, _, red, r) => set h | h in BlackCounts(l) + BlackCounts(r) :: if red then h else h + 1
  }

  ghost predicate EveryPath(s: Shape, k: nat) {
    BlackCounts(s) == {k}
  }

  ghost predicate NoRedRed(s: Shape) {
    match s
    case Nil => true
    case Bin(l, _, red, r) =>
      (red ==> (l.Bin? ==> !l.red) && (r.Bin? ==> !r.red)) && NoRedRed(l) && NoRedRed(r)
  }

  ghost predicate IsRedBlack(s: Shape) {
    NoRedRed(s) && (exists k: nat :: EveryPath(s, k)) && (s.Bin? ==> !s.red) && Sorted(InOrder(s))
  }

  /** With equally many black nodes on every path, black counts bound size below and height above. */
  lemma {:induction false} CountBounds(s: Shape, k: nat)
    requires NoRedRed(s) && BlackCounts(s) == {k}
    ensures Pow2(k) <= Size(s) + 1
    ensures Height(s) <= 2 * k + (if s.Bin? && s.red then 1 else 0)
  {
    match s
    case Nil =>
    case Bin(l, n, red, r) =>
      CountsBelow(s, k);
      var j := if red then k else k - 1;
      CountBounds(l, j);
      CountBounds(r, j);
  }

  lemma {:induction false} CountsNonempty(s: Shape)
    ensures BlackCounts(s) != {}
  {
    match s
    case Nil =>
    case Bin(l, n, red, r) =>
      CountsNonempty(l);
      var h :| h in BlackCounts(l);
      assert (if red then h else h + 1) in BlackCounts(s);
  }

  lemma CountsBelow(s: Shape, k: nat)
    requires s.Bin? && BlackCounts(s) == {k}
    ensures s.red || k > 0
    ensures var j := if s.red then k else k - 1; BlackCounts(s.left) == {j} && BlackCounts(s.right) == {j}
  {
    CountsNonempty(s.left);
    CountsNonempty(s.right);
    forall h | h in BlackCounts(s.left) + BlackCounts(s.right)
      ensures (if s.red then h else h + 1) == k
    {
      assert (if s.red then h else h + 1) in BlackCounts(s);
    }
    var x :| x in BlackCounts(s.left);
    var y :| y in BlackCounts(s.right);
  }

  lemma {:induction false} Pow2Sum(j: nat, k: nat)
    ensures Pow2(j + k) == Pow2(j) * Pow2(k)
  {
    if k > 0 {
      Pow2Sum(j, k - 1);
      assert Pow2(j + k) == 2 * (Pow2(j) * Pow2(k - 1));
      assert 2 * (Pow2(j) * Pow2(k - 1)) == Pow2(j) * (2 * Pow2(k - 1));
    }
  }

  ghost function Square(n: nat): nat {
    n * n
  }

  lemma Squares(a: nat, b: nat)
    requires a <= b
    ensures Square(a) <= Square(b)
  {
    assert a * a <= a * b;
    assert a * b <= b * b;
  }

  /** A red-black tree of n nodes is at most 2 * log2(n + 1) high. */
  lemma HeightBound(s: Shape)
    requires IsRedBlack(s)
    ensures Pow2(Height(s)) <= Square(Size(s) + 1)
  {
    var k: nat :| EveryPath(s, k);
    CountBounds(s, k);
    Pow2Mono(Height(s), k + k);
    Pow2Sum(k, k);
    Squares(Pow2(k), Size(s) + 1);
  }

  class Tree {
    var root: Node?
    ghost var order: seq<Node>
    ghost var nodes: set<Node>
    // All rotations so far, and all turns of the two fix-up loops.
    ghost var rotations: nat
    ghost var turns: nat

    constructor ()
      ensures Valid() && order == [] && nodes == {}
    {
      root := null;
      order, nodes, rotations, turns := [], {}, 0, 0;
    }

    ghost predicate LeftAt(n: Node)
      requires n in nodes
      reads this`root, this`order, this`nodes, nodes
    {
      && (n.left == null <==> n.lo == n.pos)
      && (n.left != null ==> n.left in nodes && n.left.parent == n && n.left.lo == n.lo && n.left.hi == n.pos)
    }

    ghost predicate RightAt(n: Node)
      requires n in nodes
      reads this`root, this`order, this`nodes, nodes
    {
      && (n.right == null <==> n.pos + 1 == n.hi)
      && (n.right != null ==>
            n.right in nodes && n.right.parent == n && n.right.lo == n.pos + 1 && n.right.hi == n.hi)
    }

    ghost predicate UpAt(n: Node)
      requires n in nodes
      reads this`root, this`order, this`nodes, nodes
    {
      && (n.parent == null <==> n == root)
      && (n.parent != null ==> n.parent in nodes && (n.parent.left == n || n.parent.right == n))
    }

    ghost predicate LinksAt(n: Node)
      requires n in nodes
      reads this`root, this`order, this`nodes, nodes
    {
      && 0 <= n.lo <= n.pos < n.hi <= |order| && order[n.pos] == n
      && LeftAt(n) && RightAt(n) && UpAt(n)
    }

    ghost predicate Linked()
      reads this`root, this`order, this`nodes, nodes
    {
      && (forall i :: 0 <= i < |order| ==> order[i] in nodes && order[i].pos == i)
      && (forall n {:trigger LinksAt(n)} :: n in nodes ==> LinksAt(n))
      && (root == null ==> order == [] && nodes == {})
      && (root != null ==> root in nodes && root.lo == 0 && root.hi == |order|)
    }

    ghost predicate BhAt(n: Node)
      requires n in nodes
      reads this`root, this`order, this`nodes, nodes
    {
      && (n.left != null ==> n.left in nodes) && (n.right != null ==> n.right in nodes)
      && n.bh == BhOf(n.left) && n.bh == BhOf(n.right)
    }

    ghost predicate RedAt(n: Node, e: Node?)
      requires n in nodes
      reads this`root, this`order, this`nodes, nodes
    {
      && (n.left != null ==> n.left in nodes) && (n.right != null ==> n.right in nodes)
      && (n.red && n != e ==>
            (IsRed(n.left) ==> n.left == e) && (IsRed(n.right) ==> n.right == e))
    }

    ghost predicate BhBut(z: set<Node>)
      reads this`root, this`order, this`nodes, nodes
    {
      forall n {:trigger BhAt(n)} :: n in nodes && n !in z ==> BhAt(n)
    }

    ghost predicate RedBut(e: Node?)
      reads this`root, this`order, this`nodes, nodes
    {
      forall n {:trigger RedAt(n, e)} :: n in nodes ==> RedAt(n, e)
    }

    ghost predicate Valid()
      reads this`root, this`order, this`nodes, nodes
    {
      Linked() && Sorted(order) && BhBut({}) && RedBut(null) && (root != null ==> !root.red)
    }

    /** Only the links of x, y, the parent p and the moved subtree b change in a rotation. */
    twostate predicate LinksBut(new x: Node?, new y: Node?, new p: Node?, new b: Node?)
      reads this`root, this`order, this`nodes, nodes
    {
      && nodes == old(nodes)
      && forall n :: n in nodes ==>
        && n.pos == old(n.pos)
        && (n != x && n != y && n != p ==> n.left == old(n.left) && n.right == old(n.right))
        && (n != x && n != y && n != b ==> n.parent == old(n.parent))
    }

    twostate predicate SameColors()
      reads this`root, this`order, this`nodes, nodes
    {
      nodes == old(nodes) && forall n :: n in nodes ==> n.red == old(n.red) && n.bh == old(n.bh)
    }

    twostate predicate LinkedLeft(new x: Node, new y: Node, new p: Node?, new b: Node?)
      reads this`root, this`order, this`nodes, nodes
      requires {x, y} <= nodes
    {
      && order == old(order) && LinksBut(x, y, p, b)
      && x.left == old(x.left) && x.right == b && x.parent == y
      && y.left == x && y.right == old(y.right) && y.parent == p
      && (b != null && b in nodes ==> b.parent == x)
      && (p == null ==> root == y)
      && (p != null ==> root == old(root))
      && (p != null && p in nodes ==>
            && p.left == (if old(p.left) == x then y else old(p.left))
            && p.right == (if old(p.left) == x then old(p.right) else y))
    }

    twostate predicate RotatedLeft(new x: Node, new y: Node, new p: Node?, new b: Node?)
      reads this`root, this`order, this`nodes, nodes
      requires {x, y} <= nodes
    {
      && LinkedLeft(x, y, p, b)
      && (forall n :: n in nodes && n != x && n != y ==> n.lo == old(n.lo) && n.hi == old(n.hi))
      && x.lo == old(x.lo) && x.hi == y.pos && y.lo == old(x.lo) && y.hi == old(x.hi)
    }

    twostate predicate LinkedRight(new x: Node, new y: Node, new p: Node?, new b: Node?)
      reads this`root, this`order, this`nodes, nodes
      requires {x, y} <= nodes
    {
      && order == old(order) && LinksBut(x, y, p, b)
      && x.right == old(x.right) && x.left == b && x.parent == y
      && y.right == x && y.left == old(y.left) && y.parent == p
      && (b != null && b in nodes ==> b.parent == x)
      && (p == null ==> root == y)
      && (p != null ==> root == old(root))
      && (p != null && p in nodes ==>
            && p.left == (if old(p.left) == x then y else old(p.left))
            && p.right == (if old(p.left) == x then old(p.right) else y))
    }

    twostate predicate RotatedRight(new x: Node, new y: Node, new p: Node?, new b: Node?)
      reads this`root, this`order, this`nodes, nodes
      requires {x, y} <= nodes
    {
      && LinkedRight(x, y, p, b)
      && (forall n :: n in nodes && n != x && n != y ==> n.lo == old(n.lo) && n.hi == old(n.hi))
      && x.hi == old(x.hi) && x.lo == y.pos + 1 && y.lo == old(x.lo) && y.hi == old(x.hi)
    }

    /** The parts of the neighbourhood of an edge that a rotation relies on being different. */
    lemma Distinct(x: Node, y: Node, b: Node?)
      requires Linked() && x in nodes && y in nodes
      requires (y == x.right && b == y.left) || (y == x.left && b == y.right)
      ensures y != x
      ensures x.parent == null <==> x == root
      ensures x.parent != null ==>
        x.parent in nodes && x.parent !in {x, y} && x.parent != b && (x.parent.left == x) != (x.parent.right == x)
      ensures b != null ==> b in nodes && b !in {x, y}
    {
      assert LinksAt(x) && LinksAt(y);
      assert x.parent != null ==> LinksAt(x.parent);
      assert b != null ==> LinksAt(b);
    }

    /** Makes the parent link that pointed to `x` point to `y`. */
    method Relink(p: Node?, x: Node, y: Node?)
      modifies `root, {p}`left, {p}`right
      ensures p == null ==> root == y
      ensures p != null ==> root == old(root)
      ensures p != null && old(p.left) == x ==> p.left == y && p.right == old(p.right)
      ensures p != null && old(p.left) != x ==> p.left == old(p.left) && p.right == y
    {
      if p != null {
        if p.left == x {
          p.left := y;
        } else {
          p.right := y;
        }
      } else {
        root := y;
      }
    }

    method LinkLeft(x: Node) returns (y: Node)
      requires Linked() && x in nodes && x.right != null && x.right in nodes
      modifies `root, `rotations, nodes`left, nodes`right, nodes`parent
      ensures y == old(x.right) && y in nodes && rotations == old(rotations) + 1
      ensures LinkedLeft(x, y, old(x.parent), old(y.left))
    {
      hide Linked;
      Distinct(x, x.right, x.right.left);
      y := x.right;
      x.right := y.left;
      if x.right != null {
        y.left.parent := x;
      }
      y.parent := x.parent;
      Relink(x.parent, x, y);
      y.left := x;
      x.parent := y;
      rotations := rotations + 1;
    }

    method LinkRight(x: Node) returns (y: Node)
      requires Linked() && x in nodes && x.left != null && x.left in nodes
      modifies `root, `rotations, nodes`left, nodes`right, nodes`parent
      ensures y == old(x.left) && y in nodes && rotations == old(rotations) + 1
      ensures LinkedRight(x, y, old(x.parent), old(y.right))
    {
      hide Linked;
      Distinct(x, x.left, x.left.right);
      y := x.left;
      x.left := y.right;
      if x.left != null {
        y.right.parent := x;
      }
      y.parent := x.parent;
      Relink(x.parent, x, y);
      y.right := x;
      x.parent := y;
      rotations := rotations + 1;
    }

    /** Away from `z`, black heights and colours still fit together. */
    twostate predicate ColorsKept(new z: set<Node?>)
      reads this`root, this`order, this`nodes, nodes
    {
      && nodes == old(nodes)
      && (forall n {:trigger BhAt(n)} :: n in nodes && n !in z ==> old(BhAt(n)) ==> BhAt(n))
      && (forall n {:trigger RedAt(n, null)} :: n in nodes && n !in z ==> old(RedAt(n, null)) ==> RedAt(n, null))
      && (forall n, e {:trigger RedAt(n, e)} ::
            n in nodes && e in nodes && n !in z ==> old(RedAt(n, e)) ==> RedAt(n, e))
    }

    twostate lemma RotatedColors(new x: Node, new y: Node, new p: Node?, new b: Node?)
      requires LinksBut(x, y, p, b) && SameColors()
      ensures ColorsKept({x, y, p})
    {}

    twostate lemma RotatedLeftLeft(new x: Node, new y: Node, new n: Node)
      requires old(Linked()) && x in old(nodes) && y == old(x.right) && y in old(nodes) && n in nodes
      requires nodes == old(nodes) && RotatedLeft(x, y, old(x.parent), old(y.left))
      ensures LeftAt(n)
    {
      assert old(LinksAt(x)) && old(LinksAt(y)) && old(LinksAt(n));
      var p, b := old(x.parent), old(y.left);
      assert p != null ==> old(LinksAt(p));
      assert b != null ==> old(LinksAt(b));
    }

    twostate lemma RotatedLeftRight(new x: Node, new y: Node, new n: Node)
      requires old(Linked()) && x in old(nodes) && y == old(x.right) && y in old(nodes) && n in nodes
      requires nodes == old(nodes) && RotatedLeft(x, y, old(x.parent), old(y.left))
      ensures RightAt(n)
    {
      assert old(LinksAt(x)) && old(LinksAt(y)) && old(LinksAt(n));
      var p, b := old(x.parent), old(y.left);
      assert p != null ==> old(LinksAt(p));
      assert b != null ==> old(LinksAt(b));
    }

    twostate lemma RotatedLeftUp(new x: Node, new y: Node, new n: Node)
      requires old(Linked()) && x in old(nodes) && y == old(x.right) && y in old(nodes) && n in nodes
      requires nodes == old(nodes) && RotatedLeft(x, y, old(x.parent), old(y.left))
      ensures UpAt(n)
    {
      assert old(LinksAt(x)) && old(LinksAt(y)) && old(LinksAt(n));
      var p, b := old(x.parent), old(y.left);
      assert p != null ==> old(LinksAt(p));
      assert b != null ==> old(LinksAt(b));
    }

    twostate lemma RotatedLeftLinked(new x: Node, new y: Node)
      requires old(Linked()) && x in old(nodes) && y == old(x.right) && y in old(nodes)
      requires nodes == old(nodes) && RotatedLeft(x, y, old(x.parent), old(y.left))
      ensures Linked()
    {
      assert old(LinksAt(x)) && old(LinksAt(y));
      assert old(x.parent) != null ==> old(LinksAt(x.parent));
      forall n | n in nodes
        ensures LinksAt(n)
      {
        assert old(LinksAt(n));
        RotatedLeftLeft(x, y, n);
        RotatedLeftRight(x, y, n);
        RotatedLeftUp(x, y, n);
      }
    }

    twostate lemma RotatedRightLeft(new x: Node, new y: Node, new n: Node)
      requires old(Linked()) && x in old(nodes) && y == old(x.left) && y in old(nodes) && n in nodes
      requires nodes == old(nodes) && RotatedRight(x, y, old(x.parent), old(y.right))
      ensures LeftAt(n)
    {
      assert old(LinksAt(x)) && old(LinksAt(y)) && old(LinksAt(n));
      var p, b := old(x.parent), old(y.right);
      assert p != null ==> old(LinksAt(p));
      assert b != null ==> old(LinksAt(b));
    }

    twostate lemma RotatedRightRight(new x: Node, new y: Node, new n: Node)
      requires old(Linked()) && x in old(nodes) && y == old(x.left) && y in old(nodes) && n in nodes
      requires nodes == old(nodes) && RotatedRight(x, y, old(x.parent), old(y.right))
      ensures RightAt(n)
    {
      assert old(LinksAt(x)) && old(LinksAt(y)) && old(LinksAt(n));
      var p, b := old(x.parent), old(y.right);
      assert p != null ==> old(LinksAt(p));
      assert b != null ==> old(LinksAt(b));
    }

    twostate lemma RotatedRightUp(new x: Node, new y: Node, new n: Node)
      requires old(Linked()) && x in old(nodes) && y == old(x.left) && y in old(nodes) && n in nodes
      requires nodes == old(nodes) && RotatedRight(x, y, old(x.parent), old(y.right))
      ensures UpAt(n)
    {
      assert old(LinksAt(x)) && old(LinksAt(y)) && old(LinksAt(n));
      var p, b := old(x.parent), old(y.right);
      assert p != null ==> old(LinksAt(p));
      assert b != null ==> old(LinksAt(b));
    }

    twostate lemma RotatedRightLinked(new x: Node, new y: Node)
      requires old(Linked()) && x in old(nodes) && y == old(x.left) && y in old(nodes)
      requires nodes == old(nodes) && RotatedRight(x, y, old(x.parent), old(y.right))
      ensures Linked()
    {
      assert old(LinksAt(x)) && old(LinksAt(y));
      assert old(x.parent) != null ==> old(LinksAt(x.parent));
      forall n | n in nodes
        ensures LinksAt(n)
      {
        assert old(LinksAt(n));
        RotatedRightLeft(x, y, n);
        RotatedRightRight(x, y, n);
        RotatedRightUp(x, y, n);
      }
    }

    method RotateLeft(x: Node) returns (y: Node)
      requires Linked() && x in nodes && x.right != null && x.right in nodes
      modifies `root, `rotations, nodes
      ensures y == old(x.right) && y in nodes && rotations == old(rotations) + 1
      ensures RotatedLeft(x, y, old(x.parent), old(y.left)) && SameColors() && Linked()
      ensures ColorsKept({x, y, old(x.parent)})
    {
      hide Linked, ColorsKept;
      Distinct(x, x.right, x.right.left);
      y := LinkLeft(x);
      y.lo, y.hi, x.hi := x.lo, x.hi, y.pos;
      RotatedLeftLinked(x, y);
      RotatedColors(x, y, old(x.parent), old(y.left));
    }

    method RotateRight(x: Node) returns (y: Node)
      requires Linked() && x in nodes && x.left != null && x.left in nodes
      modifies `root, `rotations, nodes
      ensures y == old(x.left) && y in nodes && rotations == old(rotations) + 1
      ensures RotatedRight(x, y, old(x.parent), old(y.right)) && SameColors() && Linked()
      ensures ColorsKept({x, y, old(x.parent)})
    {
      hide Linked, ColorsKept;
      Distinct(x, x.left, x.left.right);
      y := LinkRight(x);
      y.lo, y.hi, x.lo := x.lo, x.hi, y.pos + 1;
      RotatedRightLinked(x, y);
      RotatedColors(x, y, old(x.parent), old(y.right));
    }

    /** The loop invariant of the insertion fix-up. */
    ghost predicate InsertInv(elm: Node)
      reads this`root, this`order, this`nodes, nodes
    {
      && Linked() && Sorted(order) && elm in nodes && elm.red
      && BhBut({}) && RedBut(elm) && RedAt(elm, null)
      && root != null && (root.red ==> root == elm)
    }

    /** A red parent has a black parent of its own. */
    ghost predicate RedEdge(elm: Node)
      requires elm in nodes
      reads this`root, this`order, this`nodes, nodes
    {
      && elm.parent != null && elm.parent in nodes && elm.parent != elm && elm.parent.red
      && (elm.parent.left == elm) != (elm.parent.right == elm)
      && elm.parent.parent != null && elm.parent.parent in nodes && elm.parent.parent !in {elm, elm.parent}
      && (elm.parent.parent.left == elm.parent) != (elm.parent.parent.right == elm.parent)
      && !elm.parent.parent.red && root != null && root in nodes && !root.red
    }

    lemma InsertEdge(elm: Node)
      requires InsertInv(elm) && elm.parent != null && elm.parent in nodes && elm.parent.red
      ensures RedEdge(elm)
    {
      assert LinksAt(elm) && LinksAt(elm.parent);
      assert LinksAt(elm.parent.parent) && RedAt(elm.parent.parent, elm);
    }

    method InsertInnerLeft(elm: Node, parent: Node, gparent: Node)
      requires InsertInv(elm) && parent in nodes && parent == elm.parent && parent.red && parent.right == elm
      requires gparent in nodes && gparent == parent.parent && gparent.left == parent && !IsRed(gparent.right)
      modifies `root, `rotations, nodes
      ensures InsertInv(parent) && order == old(order) && nodes == old(nodes) && parent.bh == old(elm.bh)
      ensures parent.parent == elm && elm.left == parent && elm.parent == gparent && elm.red
      ensures gparent.left == elm && !IsRed(gparent.right)
      ensures rotations == old(rotations) + 1
    {
      InsertEdge(elm);
      assert LinksAt(gparent);
      var tmp := RotateLeft(parent);
      assert old(BhAt(elm)) && old(BhAt(parent)) && old(BhAt(gparent));
      assert old(RedAt(elm, elm)) && old(RedAt(parent, elm)) && old(RedAt(gparent, elm));
      forall n | n in nodes
        ensures BhAt(n) && RedAt(n, parent)
      {
        assert old(BhAt(n)) && old(RedAt(n, elm)) && old(LinksAt(n)) && old(RedAt(elm, null));
      }
    }

    method InsertInnerRight(elm: Node, parent: Node, gparent: Node)
      requires InsertInv(elm) && parent in nodes && parent == elm.parent && parent.red && parent.left == elm
      requires gparent in nodes && gparent == parent.parent && gparent.right == parent && !IsRed(gparent.left)
      modifies `root, `rotations, nodes
      ensures InsertInv(parent) && order == old(order) && nodes == old(nodes) && parent.bh == old(elm.bh)
      ensures parent.parent == elm && elm.right == parent && elm.parent == gparent && elm.red
      ensures gparent.right == elm && !IsRed(gparent.left)
      ensures rotations == old(rotations) + 1
    {
      InsertEdge(elm);
      assert LinksAt(gparent);
      var tmp := RotateRight(parent);
      assert old(BhAt(elm)) && old(BhAt(parent)) && old(BhAt(gparent));
      assert old(RedAt(elm, elm)) && old(RedAt(parent, elm)) && old(RedAt(gparent, elm));
      forall n | n in nodes
        ensures BhAt(n) && RedAt(n, parent)
      {
        assert old(BhAt(n)) && old(RedAt(n, elm)) && old(LinksAt(n)) && old(RedAt(elm, null));
      }
    }

    method SetBlackRed(black: Node, red: Node)
      requires Linked() && black in nodes && red in nodes && black != red
      modifies black`red, red`red
      ensures Linked() && !black.red && red.red
    {
      black.red := false;
      red.red := true;
      forall n | n in nodes
        ensures LinksAt(n)
      {
        assert old(LinksAt(n));
      }
    }

    /** Recolouring moves no link. */
    twostate predicate SameLinks()
      reads this`root, this`order, this`nodes, nodes
    {
      && nodes == old(nodes) && order == old(order) && root == old(root)
      && forall n :: n in nodes ==>
        && n.left == old(n.left) && n.right == old(n.right) && n.parent == old(n.parent)
        && n.lo == old(n.lo) && n.pos == old(n.pos) && n.hi == old(n.hi)
    }

    twostate lemma SameLinksLinked()
      requires old(Linked()) && SameLinks()
      ensures Linked()
    {
      forall n | n in nodes
        ensures LinksAt(n)
      {
        assert old(LinksAt(n));
      }
    }

    twostate lemma InsertRecolorReds(new elm: Node, new parent: Node, new gparent: Node, new uncle: Node)
      requires {elm, parent, gparent, uncle} <= old(nodes)
      requires old(InsertInv(elm) && RedEdge(elm)) && parent == old(elm.parent) && gparent == old(parent.parent)
      requires old(uncle.red) && uncle != parent
      requires old((parent == gparent.left && uncle == gparent.right)
        || (parent == gparent.right && uncle == gparent.left))
      requires SameLinks()
      requires forall n :: n in nodes ==>
        n.red == (if n == parent || n == uncle then false else n == gparent || old(n.red))
      requires forall n :: n in nodes ==> n.bh == (if n == gparent then old(elm.bh) + 1 else old(n.bh))
      ensures RedBut(gparent) && RedAt(gparent, null)
    {
      assert old(LinksAt(gparent));
      forall n | n in nodes
        ensures RedAt(n, gparent)
      {
        assert old(RedAt(n, elm)) && old(LinksAt(n));
      }
    }

    twostate lemma InsertRecolorBlacks(new elm: Node, new parent: Node, new gparent: Node, new uncle: Node)
      requires {elm, parent, gparent, uncle} <= old(nodes)
      requires old(InsertInv(elm) && RedEdge(elm)) && parent == old(elm.parent) && gparent == old(parent.parent)
      requires old(uncle.red) && uncle != parent
      requires old((parent == gparent.left && uncle == gparent.right)
        || (parent == gparent.right && uncle == gparent.left))
      requires SameLinks()
      requires forall n :: n in nodes ==>
        n.red == (if n == parent || n == uncle then false else n == gparent || old(n.red))
      requires forall n :: n in nodes ==> n.bh == (if n == gparent then old(elm.bh) + 1 else old(n.bh))
      ensures BhBut({})
    {
      assert old(LinksAt(gparent));
      assert old(BhAt(parent)) && old(BhAt(uncle)) && old(BhAt(gparent));
      assert BhAt(gparent);
      forall n | n in nodes && n != gparent
        ensures BhAt(n)
      {
        assert old(BhAt(n)) && old(LinksAt(n));
      }
    }

    method InsertRecolor(elm: Node, parent: Node, gparent: Node, uncle: Node)
      requires InsertInv(elm) && parent in nodes && parent == elm.parent && parent.red && gparent == parent.parent
      requires gparent in nodes && uncle in nodes && uncle.red && uncle != parent
      requires (parent == gparent.left && uncle == gparent.right) || (parent == gparent.right && uncle == gparent.left)
      modifies parent`red, uncle`red, gparent`red, gparent`bh
      ensures InsertInv(gparent) && gparent.bh == old(elm.bh) + 1
    {
      InsertEdge(elm);
      uncle.red := false;
      parent.red := false;
      gparent.red := true;
      gparent.bh := elm.bh + 1;
      SameLinksLinked();
      InsertRecolorReds(elm, parent, gparent, uncle);
      InsertRecolorBlacks(elm, parent, gparent, uncle);
    }

    twostate lemma InsertOuterLeftReds(new elm: Node, new parent: Node, new gparent: Node)
      requires {elm, parent, gparent} <= old(nodes) && nodes == old(nodes)
      requires old(InsertInv(elm) && RedEdge(elm)) && parent == old(elm.parent) && gparent == old(parent.parent)
      requires old(parent == gparent.left && elm == parent.left && !IsRed(gparent.right))
      requires RotatedRight(gparent, parent, old(gparent.parent), old(parent.right))
      requires forall n :: n in nodes ==>
        n.bh == old(n.bh) && n.red == (if n == parent then false else n == gparent || old(n.red))
      ensures RedBut(elm) && RedAt(elm, null)
    {
      assert old(LinksAt(elm)) && old(LinksAt(parent)) && old(LinksAt(gparent));
      assert old(RedAt(parent, elm)) && old(RedAt(gparent, elm)) && old(RedAt(elm, null));
      forall n | n in nodes
        ensures RedAt(n, elm)
      {
        assert old(RedAt(n, elm)) && old(LinksAt(n));
      }
    }

    twostate lemma InsertOuterLeftBlacks(new elm: Node, new parent: Node, new gparent: Node)
      requires {elm, parent, gparent} <= old(nodes) && nodes == old(nodes)
      requires old(InsertInv(elm) && RedEdge(elm)) && parent == old(elm.parent) && gparent == old(parent.parent)
      requires old(parent == gparent.left && elm == parent.left && !IsRed(gparent.right))
      requires RotatedRight(gparent, parent, old(gparent.parent), old(parent.right))
      requires forall n :: n in nodes ==>
        n.bh == old(n.bh) && n.red == (if n == parent then false else n == gparent || old(n.red))
      ensures BhBut({})
    {
      assert old(LinksAt(elm)) && old(LinksAt(parent)) && old(LinksAt(gparent));
      assert old(BhAt(parent)) && old(BhAt(gparent));
      assert BhAt(parent) && BhAt(gparent);
      forall n | n in nodes && n != parent && n != gparent
        ensures BhAt(n)
      {
        assert old(BhAt(n)) && old(LinksAt(n));
      }
    }

    method InsertOuterLeft(elm: Node, parent: Node, gparent: Node)
      requires InsertInv(elm) && parent in nodes && parent == elm.parent && parent.red
      requires gparent in nodes && gparent == parent.parent
      requires parent == gparent.left && elm == parent.left && !IsRed(gparent.right)
      modifies `root, `rotations, nodes
      ensures InsertInv(elm) && order == old(order) && nodes == old(nodes)
      ensures elm.parent == parent && !parent.red && elm.bh == old(elm.bh)
      ensures rotations == old(rotations) + 1
    {
      hide BhBut, RedBut, Sorted;
      InsertEdge(elm);
      assert LinksAt(gparent) && LinksAt(parent);
      SetBlackRed(parent, gparent);
      var tmp := RotateRight(gparent);
      InsertOuterLeftReds(elm, parent, gparent);
      InsertOuterLeftBlacks(elm, parent, gparent);
    }

    twostate lemma InsertOuterRightReds(new elm: Node, new parent: Node, new gparent: Node)
      requires {elm, parent, gparent} <= old(nodes) && nodes == old(nodes)
      requires old(InsertInv(elm) && RedEdge(elm)) && parent == old(elm.parent) && gparent == old(parent.parent)
      requires old(parent == gparent.right && elm == parent.right && !IsRed(gparent.left))
      requires RotatedLeft(gparent, parent, old(gparent.parent), old(parent.left))
      requires forall n :: n in nodes ==>
        n.bh == old(n.bh) && n.red == (if n == parent then false else n == gparent || old(n.red))
      ensures RedBut(elm) && RedAt(elm, null)
    {
      assert old(LinksAt(elm)) && old(LinksAt(parent)) && old(LinksAt(gparent));
      assert old(RedAt(parent, elm)) && old(RedAt(gparent, elm)) && old(RedAt(elm, null));
      forall n | n in nodes
        ensures RedAt(n, elm)
      {
        assert old(RedAt(n, elm)) && old(LinksAt(n));
      }
    }

    twostate lemma InsertOuterRightBlacks(new elm: Node, new parent: Node, new gparent: Node)
      requires {elm, parent, gparent} <= old(nodes) && nodes == old(nodes)
      requires old(InsertInv(elm) && RedEdge(elm)) && parent == old(elm.parent) && gparent == old(parent.parent)
      requires old(parent == gparent.right && elm == parent.right && !IsRed(gparent.left))
      requires RotatedLeft(gparent, parent, old(gparent.parent), old(parent.left))
      requires forall n :: n in nodes ==>
        n.bh == old(n.bh) && n.red == (if n == parent then false else n == gparent || old(n.red))
      ensures BhBut({})
    {
      assert old(LinksAt(elm)) && old(LinksAt(parent)) && old(LinksAt(gparent));
      assert old(BhAt(parent)) && old(BhAt(gparent));
      assert BhAt(parent) && BhAt(gparent);
      forall n | n in nodes && n != parent && n != gparent
        ensures BhAt(n)
      {
        assert old(BhAt(n)) && old(LinksAt(n));
      }
    }

    method InsertOuterRight(elm: Node, parent: Node, gparent: Node)
      requires InsertInv(elm) && parent in nodes && parent == elm.parent && parent.red
      requires gparent in nodes && gparent == parent.parent
      requires parent == gparent.right && elm == parent.right && !IsRed(gparent.left)
      modifies `root, `rotations, nodes
      ensures InsertInv(elm) && order == old(order) && nodes == old(nodes)
      ensures elm.parent == parent && !parent.red && elm.bh == old(elm.bh)
      ensures rotations == old(rotations) + 1
    {
      hide BhBut, RedBut, Sorted;
      InsertEdge(elm);
      assert LinksAt(gparent) && LinksAt(parent);
      SetBlackRed(parent, gparent);
      var tmp := RotateLeft(gparent);
      InsertOuterRightReds(elm, parent, gparent);
      InsertOuterRightBlacks(elm, parent, gparent);
    }

    lemma InsertDone(elm: Node)
      requires InsertInv(elm) && (elm.parent != null && elm.parent in nodes ==> !elm.parent.red)
      ensures RedBut(null)
    {
      forall n | n in nodes
        ensures RedAt(n, null)
      {
        assert RedAt(n, elm) && LinksAt(n);
      }
    }

    method BlackenRoot()
      requires Linked() && Sorted(order) && BhBut({}) && RedBut(null) && root != null && root in nodes
      modifies root`red
      ensures Valid()
    {
      root.red := false;
      SameLinksLinked();
      forall n | n in nodes
        ensures BhAt(n) && RedAt(n, null)
      {
        assert old(BhAt(n)) && old(RedAt(n, null)) && old(LinksAt(n)) && old(LinksAt(root));
      }
    }

    /** One turn of the loop when the parent is a left child. */
    method InsertFixLeft(elm: Node, parent: Node, gparent: Node) returns (next: Node)
      requires InsertInv(elm) && parent in nodes && parent == elm.parent && parent.red
      requires gparent in nodes && gparent == parent.parent && parent == gparent.left
      modifies `root, `rotations, `turns, nodes
      ensures next in nodes && InsertInv(next) && order == old(order) && nodes == old(nodes)
      ensures turns == old(turns) + 1
      ensures rotations == old(rotations) ==>
        next == gparent && next.bh == old(elm.bh) + 1 && next.hi - next.lo > old(elm.hi - elm.lo)
      ensures rotations != old(rotations) ==>
        && old(rotations) < rotations <= old(rotations) + 2
        && next.bh == old(elm.bh) && next.parent != null && next.parent in nodes && !next.parent.red
    {
      hide BhBut, RedBut, Sorted;
      turns := turns + 1;
      InsertEdge(elm);
      assert LinksAt(elm) && LinksAt(parent) && LinksAt(gparent);
      var tmp := gparent.right;
      if tmp != null && tmp.red {
        InsertRecolor(elm, parent, gparent, tmp);
        return gparent;
      }
      if parent.right == elm {
        InsertInnerLeft(elm, parent, gparent);
        InsertOuterLeft(parent, elm, gparent);
        return parent;
      } else {
        InsertOuterLeft(elm, parent, gparent);
        return elm;
      }
    }

    /** One turn of the loop when the parent is a right child. */
    method InsertFixRight(elm: Node, parent: Node, gparent: Node) returns (next: Node)
      requires InsertInv(elm) && parent in nodes && parent == elm.parent && parent.red
      requires gparent in nodes && gparent == parent.parent && parent == gparent.right
      modifies `root, `rotations, `turns, nodes
      ensures next in nodes && InsertInv(next) && order == old(order) && nodes == old(nodes)
      ensures turns == old(turns) + 1
      ensures rotations == old(rotations) ==>
        next == gparent && next.bh == old(elm.bh) + 1 && next.hi - next.lo > old(elm.hi - elm.lo)
      ensures rotations != old(rotations) ==>
        && old(rotations) < rotations <= old(rotations) + 2
        && next.bh == old(elm.bh) && next.parent != null && next.parent in nodes && !next.parent.red
    {
      hide BhBut, RedBut, Sorted;
      turns := turns + 1;
      InsertEdge(elm);
      assert LinksAt(elm) && LinksAt(parent) && LinksAt(gparent);
      var tmp := gparent.left;
      if tmp != null && tmp.red {
        InsertRecolor(elm, parent, gparent, tmp);
        return gparent;
      }
      if parent.left == elm {
        InsertInnerRight(elm, parent, gparent);
        InsertOuterRight(parent, elm, gparent);
        return parent;
      } else {
        InsertOuterRight(elm, parent, gparent);
        return elm;
      }
    }

    /** Rotates at most twice, and makes at most log2(n + 1) turns. */
    method InsertColor(newElm: Node)
      requires InsertInv(newElm)
      modifies `root, `rotations, `turns, nodes
      ensures Valid() && order == old(order) && nodes == old(nodes)
      ensures old(rotations) <= rotations <= old(rotations) + 2
      ensures old(turns) <= turns && Pow2(turns - old(turns)) <= |order| + 1
    {
      hide BhBut, RedBut, Sorted;
      var elm: Node, parent := newElm, newElm.parent;
      assert LinksAt(elm);
      while parent != null && parent.red
        invariant elm in nodes && InsertInv(elm) && order == old(order) && nodes == old(nodes)
        invariant parent == elm.parent && (parent != null ==> parent in nodes)
        invariant old(turns) <= turns && old(rotations) <= rotations <= old(rotations) + 2
        invariant turns - old(turns) <= elm.bh + if parent != null && parent.red then 0 else 1
        invariant rotations == old(rotations) || (parent != null && !parent.red)
        decreases parent != null && parent.red, |order| - (elm.hi - elm.lo)
      {
        InsertEdge(elm);
        assert LinksAt(parent);
        var gparent := parent.parent;
        if parent == gparent.left {
          elm := InsertFixLeft(elm, parent, gparent);
        } else {
          elm := InsertFixRight(elm, parent, gparent);
        }
        parent := elm.parent;
        assert LinksAt(elm);
      }
      InsertDone(elm);
      BlackenRoot();
      BlackHeightBound(elm);
      assert LinksAt(elm);
      Pow2Mono(turns - old(turns), elm.bh + 1);
    }

    // ---- RB_REMOVE_COLOR ----

    /** The sibling takes the parent's colour; the parent and the outer child become black. */
    method PassColors(parent: Node, tmp: Node, outer: Node)
      requires Linked() && {parent, tmp, outer} <= nodes && parent != tmp && outer != tmp
      modifies nodes
      ensures SameLinks() && Linked()
      ensures forall n :: n in nodes ==>
        && n.red == (if n == tmp then old(parent.red) else if n == parent || n == outer then false else old(n.red))
        && n.bh == (if n == tmp then old(parent.bh) else if n == parent then old(tmp.bh) else old(n.bh))
    {
      ghost var h := parent.bh;
      tmp.red := parent.red;
      parent.red := false;
      outer.red := false;
      parent.bh := tmp.bh;
      tmp.bh := h;
      SameLinksLinked();
    }

    /** The subtree at `elm`, a child of `parent`, is one black node short. */
    ghost predicate Short(parent: Node, elm: Node?)
      requires parent in nodes
      reads this`root, this`order, this`nodes, nodes
    {
      && (parent.left != null ==> parent.left in nodes) && (parent.right != null ==> parent.right in nodes)
      && (parent.left == elm || parent.right == elm)
      && parent.bh == BhOf(elm) + 1
      && parent.bh == BhOf(if parent.left == elm then parent.right else parent.left)
    }

    /** The loop invariant of the removal fix-up. */
    ghost predicate RemoveInv(parent: Node?, elm: Node?)
      reads this`root, this`order, this`nodes, nodes
    {
      && Linked() && Sorted(order)
      && (elm != null ==> elm in nodes && elm.parent == parent)
      && (parent == null ==> elm == root && BhBut({}))
      && (parent != null ==> parent in nodes && Short(parent, elm) && BhBut({parent}))
      && RedBut(elm) && (root != null && root.red ==> root == elm)
    }

    /** Where no red node has a red child, `e` need not be the exception. */
    lemma NoneIsRed(e: Node?)
      requires RedBut(null)
      ensures RedBut(e)
    {
      forall n | n in nodes
        ensures RedAt(n, e)
      {
        assert RedAt(n, null);
      }
    }

    /** While the loop runs, nothing is wrong but the black height below `parent`. */
    lemma RemoveRunning(parent: Node, elm: Node?)
      requires RemoveInv(parent, elm) && (elm != null ==> elm in nodes && !elm.red)
      ensures RedBut(null) && root != null && root in nodes && !root.red
      ensures parent in nodes && (parent.left == elm) != (parent.right == elm)
      ensures parent.left == elm ==> parent.right != null && parent.right in nodes
      ensures parent.right == elm ==> parent.left != null && parent.left in nodes
      ensures parent.parent != null ==> parent.parent in nodes && parent.parent != parent
    {
      assert LinksAt(parent);
      assert parent.parent != null ==> LinksAt(parent.parent);
      forall n | n in nodes
        ensures RedAt(n, null)
      {
        assert RedAt(n, elm);
      }
    }

    twostate lemma RedSiblingLeftReds(new parent: Node, new tmp: Node)
      requires {parent, tmp} <= old(nodes) && nodes == old(nodes)
      requires old(Linked() && RedBut(null) && BhBut({parent}) && Short(parent, parent.left) && !IsRed(parent.left))
      requires tmp == old(parent.right) && old(tmp.red)
      requires RotatedLeft(parent, tmp, old(parent.parent), old(tmp.left))
      requires forall n :: n in nodes ==>
        n.bh == old(n.bh) && n.red == (if n == tmp then false else n == parent || old(n.red))
      ensures RedBut(null) && !IsRed(parent.right)
    {
      assert old(LinksAt(parent)) && old(LinksAt(tmp));
      assert old(RedAt(parent, null)) && old(RedAt(tmp, null));
      forall n | n in nodes
        ensures RedAt(n, null)
      {
        assert old(RedAt(n, null)) && old(LinksAt(n));
      }
    }

    twostate lemma RedSiblingLeftBlacks(new parent: Node, new tmp: Node)
      requires {parent, tmp} <= old(nodes) && nodes == old(nodes)
      requires old(Linked() && RedBut(null) && BhBut({parent}) && Short(parent, parent.left) && !IsRed(parent.left))
      requires tmp == old(parent.right) && old(tmp.red)
      requires RotatedLeft(parent, tmp, old(parent.parent), old(tmp.left))
      requires forall n :: n in nodes ==>
        n.bh == old(n.bh) && n.red == (if n == tmp then false else n == parent || old(n.red))
      ensures BhBut({parent}) && Short(parent, parent.left)
    {
      assert old(LinksAt(parent)) && old(LinksAt(tmp));
      assert old(RedAt(parent, null)) && old(RedAt(tmp, null)) && old(BhAt(tmp));
      assert BhAt(tmp);
      forall n | n in nodes && n != parent && n != tmp
        ensures BhAt(n)
      {
        assert old(BhAt(n)) && old(LinksAt(n));
      }
    }

    /** The sibling is red: rotate it above the parent and look at the new sibling. */
    method RedSiblingLeft(parent: Node, elm: Node?, tmp: Node)
      requires RemoveInv(parent, elm) && parent in nodes && (elm != null ==> elm in nodes && !elm.red)
      requires parent.left == elm && parent.right == tmp && tmp in nodes && tmp.red
      modifies `root, `rotations, nodes
      ensures RemoveInv(parent, elm) && order == old(order) && nodes == old(nodes)
      ensures parent.left == elm && parent.red && !IsRed(parent.right) && (elm != null ==> !elm.red)
      ensures parent.bh == old(parent.bh)
      ensures rotations == old(rotations) + 1
    {
      hide BhBut, RedBut, Sorted;
      RemoveRunning(parent, elm);
      assert LinksAt(parent) && LinksAt(tmp);
      assert elm != null ==> LinksAt(elm);
      SetBlackRed(tmp, parent);
      var y := RotateLeft(parent);
      RedSiblingLeftReds(parent, tmp);
      RedSiblingLeftBlacks(parent, tmp);
      NoneIsRed(elm);
    }

    twostate lemma RedSiblingRightReds(new parent: Node, new tmp: Node)
      requires {parent, tmp} <= old(nodes) && nodes == old(nodes)
      requires old(Linked() && RedBut(null) && BhBut({parent}) && Short(parent, parent.right) && !IsRed(parent.right))
      requires tmp == old(parent.left) && old(tmp.red)
      requires RotatedRight(parent, tmp, old(parent.parent), old(tmp.right))
      requires forall n :: n in nodes ==>
        n.bh == old(n.bh) && n.red == (if n == tmp then false else n == parent || old(n.red))
      ensures RedBut(null) && !IsRed(parent.left)
    {
      assert old(LinksAt(parent)) && old(LinksAt(tmp));
      assert old(RedAt(parent, null)) && old(RedAt(tmp, null));
      forall n | n in nodes
        ensures RedAt(n, null)
      {
        assert old(RedAt(n, null)) && old(LinksAt(n));
      }
    }

    twostate lemma RedSiblingRightBlacks(new parent: Node, new tmp: Node)
      requires {parent, tmp} <= old(nodes) && nodes == old(nodes)
      requires old(Linked() && RedBut(null) && BhBut({parent}) && Short(parent, parent.right) && !IsRed(parent.right))
      requires tmp == old(parent.left) && old(tmp.red)
      requires RotatedRight(parent, tmp, old(parent.parent), old(tmp.right))
      requires forall n :: n in nodes ==>
        n.bh == old(n.bh) && n.red == (if n == tmp then false else n == parent || old(n.red))
      ensures BhBut({parent}) && Short(parent, parent.right)
    {
      assert old(LinksAt(parent)) && old(LinksAt(tmp));
      assert old(RedAt(parent, null)) && old(RedAt(tmp, null)) && old(BhAt(tmp));
      assert BhAt(tmp);
      forall n | n in nodes && n != parent && n != tmp
        ensures BhAt(n)
      {
        assert old(BhAt(n)) && old(LinksAt(n));
      }
    }

    /** The sibling is red: rotate it above the parent and look at the new sibling. */
    method RedSiblingRight(parent: Node, elm: Node?, tmp: Node)
      requires RemoveInv(parent, elm) && parent in nodes && (elm != null ==> elm in nodes && !elm.red)
      requires parent.right == elm && parent.left == tmp && tmp in nodes && tmp.red
      modifies `root, `rotations, nodes
      ensures RemoveInv(parent, elm) && order == old(order) && nodes == old(nodes)
      ensures parent.right == elm && parent.red && !IsRed(parent.left) && (elm != null ==> !elm.red)
      ensures parent.bh == old(parent.bh)
      ensures rotations == old(rotations) + 1
    {
      hide BhBut, RedBut, Sorted;
      RemoveRunning(parent, elm);
      assert LinksAt(parent) && LinksAt(tmp);
      assert elm != null ==> LinksAt(elm);
      SetBlackRed(tmp, parent);
      var y := RotateRight(parent);
      RedSiblingRightReds(parent, tmp);
      RedSiblingRightBlacks(parent, tmp);
      NoneIsRed(elm);
    }

    twostate lemma RemoveRecolorReds(new parent: Node, new tmp: Node)
      requires {parent, tmp} <= old(nodes) && parent != tmp && SameLinks()
      requires old(Linked() && RedBut(null) && BhBut({parent}))
      requires old((tmp == parent.right && Short(parent, parent.left))
        || (tmp == parent.left && Short(parent, parent.right)))
      requires old(!tmp.red && !IsRed(tmp.left) && !IsRed(tmp.right))
      requires forall n :: n in nodes ==> n.red == (n == tmp || old(n.red))
      requires forall n :: n in nodes ==> n.bh == (if n == parent then old(n.bh) - 1 else old(n.bh))
      requires old(parent.bh) > 0
      ensures RedBut(parent)
    {
      assert old(LinksAt(parent)) && old(LinksAt(tmp));
      forall n | n in nodes
        ensures RedAt(n, parent)
      {
        assert old(RedAt(n, null)) && old(LinksAt(n));
      }
    }

    twostate lemma RemoveRecolorBlacks(new parent: Node, new tmp: Node)
      requires {parent, tmp} <= old(nodes) && parent != tmp && SameLinks()
      requires old(Linked() && RedBut(null) && BhBut({parent}))
      requires old((tmp == parent.right && Short(parent, parent.left))
        || (tmp == parent.left && Short(parent, parent.right)))
      requires old(!tmp.red && !IsRed(tmp.left) && !IsRed(tmp.right))
      requires forall n :: n in nodes ==> n.red == (n == tmp || old(n.red))
      requires forall n :: n in nodes ==> n.bh == (if n == parent then old(n.bh) - 1 else old(n.bh))
      requires old(parent.bh) > 0
      ensures if parent.parent == null then BhBut({})
               else parent.parent in nodes && Short(parent.parent, parent) && BhBut({parent.parent})
    {
      assert old(LinksAt(parent)) && old(LinksAt(tmp));
      assert parent.parent != null ==> old(LinksAt(parent.parent)) && old(BhAt(parent.parent));
      assert BhAt(parent);
      forall n | n in nodes && n != parent && n != parent.parent
        ensures BhAt(n)
      {
        assert old(BhAt(n)) && old(LinksAt(n));
      }
    }

    /** The sibling becomes red, which takes a black node from below the parent. */
    method Redden(parent: Node, tmp: Node)
      requires Linked() && {parent, tmp} <= nodes && parent.bh > 0
      modifies tmp`red, parent`bh
      ensures SameLinks() && Linked()
      ensures forall n :: n in nodes ==> n.red == (n == tmp || old(n.red))
      ensures forall n :: n in nodes ==> n.bh == (if n == parent then old(n.bh) - 1 else old(n.bh))
    {
      hide Linked;
      tmp.red := true;
      parent.bh := parent.bh - 1;
      SameLinksLinked();
    }

    /** The sibling and its children are black: the shortage moves up to the parent. */
    method RemoveRecolor(parent: Node, elm: Node?, tmp: Node)
      requires RemoveInv(parent, elm) && parent in nodes && (elm != null ==> elm in nodes && !elm.red)
      requires tmp in nodes && tmp == (if parent.left == elm then parent.right else parent.left)
      requires !tmp.red && !IsRed(tmp.left) && !IsRed(tmp.right)
      modifies tmp`red, parent`bh
      ensures RemoveInv(parent.parent, parent) && parent.bh == old(parent.bh) - 1
    {
      hide BhBut, RedBut, Sorted;
      RemoveRunning(parent, elm);
      assert LinksAt(parent);
      Redden(parent, tmp);
      RemoveRecolorReds(parent, tmp);
      RemoveRecolorBlacks(parent, tmp);
      assert LinksAt(parent);
      assert old(LinksAt(root));
    }

    twostate lemma RemoveInnerLeftReds(new parent: Node, new tmp: Node, new inner: Node)
      requires {parent, tmp, inner} <= old(nodes) && nodes == old(nodes)
      requires old(Linked() && RedBut(null) && BhBut({parent}) && Short(parent, parent.left))
      requires tmp == old(parent.right) && inner == old(tmp.left) && old(!tmp.red && inner.red && !IsRed(tmp.right))
      requires RotatedRight(tmp, inner, parent, old(inner.right))
      requires forall n :: n in nodes ==>
        n.bh == old(n.bh) && n.red == (if n == inner then false else n == tmp || old(n.red))
      ensures RedBut(null)
    {
      assert old(LinksAt(parent)) && old(LinksAt(tmp)) && old(LinksAt(inner));
      assert old(RedAt(inner, null)) && old(RedAt(parent, null));
      forall n | n in nodes
        ensures RedAt(n, null)
      {
        assert old(RedAt(n, null)) && old(LinksAt(n));
      }
    }

    twostate lemma RemoveInnerLeftBlacks(new parent: Node, new tmp: Node, new inner: Node)
      requires {parent, tmp, inner} <= old(nodes) && nodes == old(nodes)
      requires old(Linked() && RedBut(null) && BhBut({parent}) && Short(parent, parent.left))
      requires tmp == old(parent.right) && inner == old(tmp.left) && old(!tmp.red && inner.red && !IsRed(tmp.right))
      requires RotatedRight(tmp, inner, parent, old(inner.right))
      requires forall n :: n in nodes ==>
        n.bh == old(n.bh) && n.red == (if n == inner then false else n == tmp || old(n.red))
      ensures BhBut({parent}) && Short(parent, parent.left) && parent.left == old(parent.left) && parent.right == inner
    {
      assert old(LinksAt(parent)) && old(LinksAt(tmp)) && old(LinksAt(inner));
      assert old(BhAt(tmp)) && old(BhAt(inner)) && old(RedAt(inner, null));
      assert BhAt(tmp) && BhAt(inner);
      forall n | n in nodes && n !in {parent, tmp, inner}
        ensures BhAt(n)
      {
        assert old(BhAt(n)) && old(LinksAt(n));
      }
    }

    /** The sibling's outer child is black: turn the red inner child outwards. */
    method RemoveInnerLeft(parent: Node, elm: Node?, tmp: Node) returns (sibling: Node)
      requires RemoveInv(parent, elm) && parent in nodes && (elm != null ==> elm in nodes && !elm.red)
      requires parent.left == elm && parent.right == tmp && tmp in nodes && !tmp.red
      requires IsRed(tmp.left) && !IsRed(tmp.right)
      modifies `root, `rotations, nodes
      ensures RemoveInv(parent, elm) && order == old(order) && nodes == old(nodes)
      ensures parent.left == elm && (elm != null ==> !elm.red)
      ensures sibling in nodes && parent.right == sibling && !sibling.red && sibling.right == tmp && tmp.red
      ensures parent.bh == old(parent.bh)
      ensures rotations == old(rotations) + 1
    {
      hide BhBut, RedBut, Sorted;
      RemoveRunning(parent, elm);
      assert LinksAt(parent) && LinksAt(tmp);
      assert elm != null ==> LinksAt(elm);
      var inner := tmp.left;
      SetBlackRed(inner, tmp);
      var y := RotateRight(tmp);
      RemoveInnerLeftReds(parent, tmp, inner);
      RemoveInnerLeftBlacks(parent, tmp, inner);
      NoneIsRed(elm);
      assert LinksAt(parent);
      sibling := parent.right;
    }

    twostate lemma RemoveOuterLeftReds(new parent: Node, new tmp: Node, new outer: Node)
      requires {parent, tmp, outer} <= old(nodes) && nodes == old(nodes)
      requires old(Linked() && RedBut(null) && !IsRed(parent.left))
      requires tmp == old(parent.right) && outer == old(tmp.right) && old(!tmp.red && outer.red)
      requires RotatedLeft(parent, tmp, old(parent.parent), old(tmp.left))
      requires forall n :: n in nodes ==>
        n.red == (if n == tmp then old(parent.red) else if n == parent || n == outer then false else old(n.red))
      ensures RedBut(null)
    {
      assert old(LinksAt(parent)) && old(LinksAt(tmp)) && old(LinksAt(outer));
      assert old(RedAt(parent, null)) && old(RedAt(outer, null));
      forall n | n in nodes
        ensures RedAt(n, null)
      {
        assert old(RedAt(n, null)) && old(LinksAt(n));
      }
    }

    twostate lemma RemoveOuterLeftBlacks(new parent: Node, new tmp: Node, new outer: Node)
      requires {parent, tmp, outer} <= old(nodes) && nodes == old(nodes)
      requires old(Linked() && BhBut({parent}) && Short(parent, parent.left))
      requires tmp == old(parent.right) && outer == old(tmp.right) && old(!tmp.red && outer.red)
      requires RotatedLeft(parent, tmp, old(parent.parent), old(tmp.left))
      requires forall n :: n in nodes ==>
        n.red == (if n == tmp then old(parent.red) else if n == parent || n == outer then false else old(n.red))
      requires forall n :: n in nodes ==>
        n.bh == (if n == tmp then old(parent.bh) else if n == parent then old(tmp.bh) else old(n.bh))
      ensures BhBut({})
    {
      assert old(LinksAt(parent)) && old(LinksAt(tmp)) && old(LinksAt(outer));
      assert old(BhAt(tmp)) && old(BhAt(outer));
      assert BhAt(parent) && BhAt(tmp);
      forall n | n in nodes && n != parent && n != tmp
        ensures BhAt(n)
      {
        assert old(BhAt(n)) && old(LinksAt(n));
      }
    }

    twostate lemma RemoveInnerRightReds(new parent: Node, new tmp: Node, new inner: Node)
      requires {parent, tmp, inner} <= old(nodes) && nodes == old(nodes)
      requires old(Linked() && RedBut(null) && BhBut({parent}) && Short(parent, parent.right))
      requires tmp == old(parent.left) && inner == old(tmp.right) && old(!tmp.red && inner.red && !IsRed(tmp.left))
      requires RotatedLeft(tmp, inner, parent, old(inner.left))
      requires forall n :: n in nodes ==>
        n.bh == old(n.bh) && n.red == (if n == inner then false else n == tmp || old(n.red))
      ensures RedBut(null)
    {
      assert old(LinksAt(parent)) && old(LinksAt(tmp)) && old(LinksAt(inner));
      assert old(RedAt(inner, null)) && old(RedAt(parent, null));
      forall n | n in nodes
        ensures RedAt(n, null)
      {
        assert old(RedAt(n, null)) && old(LinksAt(n));
      }
    }

    twostate lemma RemoveInnerRightBlacks(new parent: Node, new tmp: Node, new inner: Node)
      requires {parent, tmp, inner} <= old(nodes) && nodes == old(nodes)
      requires old(Linked() && RedBut(null) && BhBut({parent}) && Short(parent, parent.right))
      requires tmp == old(parent.left) && inner == old(tmp.right) && old(!tmp.red && inner.red && !IsRed(tmp.left))
      requires RotatedLeft(tmp, inner, parent, old(inner.left))
      requires forall n :: n in nodes ==>
        n.bh == old(n.bh) && n.red == (if n == inner then false else n == tmp || old(n.red))
      ensures BhBut({parent}) && Short(parent, parent.right) && parent.right == old(parent.right)
        && parent.left == inner
    {
      assert old(LinksAt(parent)) && old(LinksAt(tmp)) && old(LinksAt(inner));
      assert old(BhAt(tmp)) && old(BhAt(inner)) && old(RedAt(inner, null));
      assert BhAt(tmp) && BhAt(inner);
      forall n | n in nodes && n !in {parent, tmp, inner}
        ensures BhAt(n)
      {
        assert old(BhAt(n)) && old(LinksAt(n));
      }
    }

    /** The sibling's outer child is black: turn the red inner child outwards. */
    method RemoveInnerRight(parent: Node, elm: Node?, tmp: Node) returns (sibling: Node)
      requires RemoveInv(parent, elm) && parent in nodes && (elm != null ==> elm in nodes && !elm.red)
      requires parent.right == elm && parent.left == tmp && tmp in nodes && !tmp.red
      requires IsRed(tmp.right) && !IsRed(tmp.left)
      modifies `root, `rotations, nodes
      ensures RemoveInv(parent, elm) && order == old(order) && nodes == old(nodes)
      ensures parent.right == elm && (elm != null ==> !elm.red)
      ensures sibling in nodes && parent.left == sibling && !sibling.red && sibling.left == tmp && tmp.red
      ensures parent.bh == old(parent.bh)
      ensures rotations == old(rotations) + 1
    {
      hide BhBut, RedBut, Sorted;
      RemoveRunning(parent, elm);
      assert LinksAt(parent) && LinksAt(tmp);
      assert elm != null ==> LinksAt(elm);
      var inner := tmp.right;
      SetBlackRed(inner, tmp);
      var y := RotateLeft(tmp);
      RemoveInnerRightReds(parent, tmp, inner);
      RemoveInnerRightBlacks(parent, tmp, inner);
      NoneIsRed(elm);
      assert LinksAt(parent);
      sibling := parent.left;
    }

    twostate lemma RemoveOuterRightReds(new parent: Node, new tmp: Node, new outer: Node)
      requires {parent, tmp, outer} <= old(nodes) && nodes == old(nodes)
      requires old(Linked() && RedBut(null) && !IsRed(parent.right))
      requires tmp == old(parent.left) && outer == old(tmp.left) && old(!tmp.red && outer.red)
      requires RotatedRight(parent, tmp, old(parent.parent), old(tmp.right))
      requires forall n :: n in nodes ==>
        n.red == (if n == tmp then old(parent.red) else if n == parent || n == outer then false else old(n.red))
      ensures RedBut(null)
    {
      assert old(LinksAt(parent)) && old(LinksAt(tmp)) && old(LinksAt(outer));
      assert old(RedAt(parent, null)) && old(RedAt(outer, null));
      forall n | n in nodes
        ensures RedAt(n, null)
      {
        assert old(RedAt(n, null)) && old(LinksAt(n));
      }
    }

    twostate lemma RemoveOuterRightBlacks(new parent: Node, new tmp: Node, new outer: Node)
      requires {parent, tmp, outer} <= old(nodes) && nodes == old(nodes)
      requires old(Linked() && BhBut({parent}) && Short(parent, parent.right))
      requires tmp == old(parent.left) && outer == old(tmp.left) && old(!tmp.red && outer.red)
      requires RotatedRight(parent, tmp, old(parent.parent), old(tmp.right))
      requires forall n :: n in nodes ==>
        n.red == (if n == tmp then old(parent.red) else if n == parent || n == outer then false else old(n.red))
      requires forall n :: n in nodes ==>
        n.bh == (if n == tmp then old(parent.bh) else if n == parent then old(tmp.bh) else old(n.bh))
      ensures BhBut({})
    {
      assert old(LinksAt(parent)) && old(LinksAt(tmp)) && old(LinksAt(outer));
      assert old(BhAt(tmp)) && old(BhAt(outer));
      assert BhAt(parent) && BhAt(tmp);
      forall n | n in nodes && n != parent && n != tmp
        ensures BhAt(n)
      {
        assert old(BhAt(n)) && old(LinksAt(n));
      }
    }

    /** The sibling's outer child is red: one rotation repairs the tree. */
    method RemoveOuterLeft(parent: Node, elm: Node?, tmp: Node)
      requires RemoveInv(parent, elm) && parent in nodes && (elm != null ==> elm in nodes && !elm.red)
      requires parent.left == elm && parent.right == tmp && tmp in nodes && !tmp.red && IsRed(tmp.right)
      modifies `root, `rotations, nodes
      ensures Valid() && order == old(order) && nodes == old(nodes) && tmp.bh == old(parent.bh)
      ensures rotations == old(rotations) + 1
    {
      RemoveRunning(parent, elm);
      assert LinksAt(parent) && LinksAt(tmp);
      var outer := tmp.right;
      PassColors(parent, tmp, outer);
      var y := RotateLeft(parent);
      RemoveOuterLeftReds(parent, tmp, outer);
      RemoveOuterLeftBlacks(parent, tmp, outer);
    }

    /** One turn of the loop when the short side is the left one. */
    method RemoveFixLeft(parent: Node, elm: Node?) returns (done: bool, ghost top: Node)
      requires RemoveInv(parent, elm) && parent in nodes && (elm != null ==> elm in nodes && !elm.red)
      requires parent.left == elm
      modifies `root, `rotations, nodes
      ensures order == old(order) && nodes == old(nodes)
      ensures done ==> Valid() && top in nodes && top.bh > old(BhOf(elm))
      ensures !done ==> RemoveInv(parent.parent, parent) && parent.bh == old(parent.bh) - 1
      ensures old(rotations) <= rotations <= old(rotations) + if done then 3 else 1
      ensures !done && rotations != old(rotations) ==> parent.red
      ensures !done && rotations == old(rotations) ==> parent.lo == old(parent.lo) && parent.hi == old(parent.hi)
    {
      hide BhBut, RedBut, Sorted;
      RemoveRunning(parent, elm);
      var tmp := parent.right;
      if tmp.red {
        RedSiblingLeft(parent, elm, tmp);
        RemoveRunning(parent, elm);
        tmp := parent.right;
      }
      top := tmp;
      if (tmp.left == null || !tmp.left.red) && (tmp.right == null || !tmp.right.red) {
        RemoveRecolor(parent, elm, tmp);
        return false, top;
      }
      if tmp.right == null || !tmp.right.red {
        tmp := RemoveInnerLeft(parent, elm, tmp);
      }
      RemoveOuterLeft(parent, elm, tmp);
      return true, tmp;
    }

    /** The sibling's outer child is red: one rotation repairs the tree. */
    method RemoveOuterRight(parent: Node, elm: Node?, tmp: Node)
      requires RemoveInv(parent, elm) && parent in nodes && (elm != null ==> elm in nodes && !elm.red)
      requires parent.right == elm && parent.left == tmp && tmp in nodes && !tmp.red && IsRed(tmp.left)
      modifies `root, `rotations, nodes
      ensures Valid() && order == old(order) && nodes == old(nodes) && tmp.bh == old(parent.bh)
      ensures rotations == old(rotations) + 1
    {
      RemoveRunning(parent, elm);
      assert LinksAt(parent) && LinksAt(tmp);
      var outer := tmp.left;
      PassColors(parent, tmp, outer);
      var y := RotateRight(parent);
      RemoveOuterRightReds(parent, tmp, outer);
      RemoveOuterRightBlacks(parent, tmp, outer);
    }

    /** One turn of the loop when the short side is the right one. */
    method RemoveFixRight(parent: Node, elm: Node?) returns (done: bool, ghost top: Node)
      requires RemoveInv(parent, elm) && parent in nodes && (elm != null ==> elm in nodes && !elm.red)
      requires parent.right == elm
      modifies `root, `rotations, nodes
      ensures order == old(order) && nodes == old(nodes)
      ensures done ==> Valid() && top in nodes && top.bh > old(BhOf(elm))
      ensures !done ==> RemoveInv(parent.parent, parent) && parent.bh == old(parent.bh) - 1
      ensures old(rotations) <= rotations <= old(rotations) + if done then 3 else 1
      ensures !done && rotations != old(rotations) ==> parent.red
      ensures !done && rotations == old(rotations) ==> parent.lo == old(parent.lo) && parent.hi == old(parent.hi)
    {
      hide BhBut, RedBut, Sorted;
      RemoveRunning(parent, elm);
      var tmp := parent.left;
      if tmp.red {
        RedSiblingRight(parent, elm, tmp);
        RemoveRunning(parent, elm);
        tmp := parent.left;
      }
      top := tmp;
      if (tmp.left == null || !tmp.left.red) && (tmp.right == null || !tmp.right.red) {
        RemoveRecolor(parent, elm, tmp);
        return false, top;
      }
      if tmp.left == null || !tmp.left.red {
        tmp := RemoveInnerRight(parent, elm, tmp);
      }
      RemoveOuterRight(parent, elm, tmp);
      return true, tmp;
    }

    lemma ValidStops()
      requires Valid()
      ensures RemoveInv(null, root)
    {
      assert root != null ==> LinksAt(root);
      NoneIsRed(root);
    }

    method BlackenLast(ghost parent: Node?, elm: Node)
      requires RemoveInv(parent, elm) && elm in nodes && (elm.red || elm == root)
      modifies elm`red
      ensures Valid()
    {
      assert LinksAt(elm);
      elm.red := false;
      SameLinksLinked();
      forall n | n in nodes
        ensures BhAt(n) && RedAt(n, null)
      {
        assert n != parent ==> old(BhAt(n));
        assert old(RedAt(n, elm)) && old(LinksAt(n));
      }
    }

    ghost function SizeOf(n: Node?): int
      reads n
    {
      if n == null then 0 else n.hi - n.lo
    }

    /** The black height of a node is at most logarithmic in the size of its subtree. */
    lemma {:induction false} BlackHeightBound(n: Node)
      requires Linked() && BhBut({}) && n in nodes
      ensures Pow2(n.bh + 1) <= n.hi - n.lo + 1
      decreases n.hi - n.lo
    {
      assert LinksAt(n) && BhAt(n);
      if n.left != null {
        assert LinksAt(n.left);
        BlackHeightBound(n.left);
      }
      if n.right != null {
        assert LinksAt(n.right);
        BlackHeightBound(n.right);
      }
    }

    method RemoveFix(parent: Node, elm: Node?) returns (done: bool, ghost top: Node)
      requires RemoveInv(parent, elm) && parent in nodes && (elm != null ==> elm in nodes && !elm.red)
      modifies `root, `rotations, `turns, nodes
      ensures order == old(order) && nodes == old(nodes)
      ensures done ==> RemoveInv(null, root) && top in nodes && top.bh > old(BhOf(elm))
      ensures !done ==> RemoveInv(parent.parent, parent) && parent.bh == old(parent.bh) - 1
      ensures turns == old(turns) + 1
      ensures old(rotations) <= rotations <= old(rotations) + if done then 3 else 1
      ensures !done && rotations != old(rotations) ==> parent.red
      ensures !done && rotations == old(rotations) ==> parent.hi - parent.lo == old(parent.hi - parent.lo)
    {
      turns := turns + 1;
      if parent.left == elm {
        done, top := RemoveFixLeft(parent, elm);
      } else {
        done, top := RemoveFixRight(parent, elm);
      }
      if done {
        ValidStops();
      }
    }

    ghost predicate RemoveProgress(elm: Node?, top: Node?, steps: nat)
      reads this`root, this`order, this`nodes, nodes
    {
      if top == null then steps == 0
      else top in nodes && steps <= top.bh + 1 && (top == elm || elm == root)
    }

    /** The parent of a node that is short has the larger subtree. */
    lemma Climbs(parent: Node?, elm: Node?)
      requires RemoveInv(parent, elm) && elm != root
      ensures parent != null && parent in nodes && SizeOf(elm) < SizeOf(parent) <= |order|
    {
      assert LinksAt(parent);
      assert elm != null ==> LinksAt(elm);
    }

    lemma StepsBound(top: Node, steps: nat)
      requires Linked() && BhBut({}) && top in nodes && steps <= top.bh + 1
      ensures Pow2(steps) <= |order| + 1
    {
      BlackHeightBound(top);
      assert LinksAt(top);
      Pow2Mono(steps, top.bh + 1);
    }

    /** Rotates at most three times, and makes at most log2(n + 1) turns. */
    method RemoveColor(above: Node?, elm0: Node?)
      requires RemoveInv(above, elm0)
      modifies `root, `rotations, `turns, nodes
      ensures Valid() && order == old(order) && nodes == old(nodes)
      ensures old(rotations) <= rotations <= old(rotations) + 3
      ensures old(turns) <= turns && Pow2(turns - old(turns)) <= |order| + 1
    {
      hide BhBut, RedBut, Sorted, LinksAt;
      var parent, elm := above, elm0;
      ghost var up, top: Node? := parent, null;
      while (elm == null || !elm.red) && elm != root
        invariant RemoveInv(up, elm) && order == old(order) && nodes == old(nodes)
        invariant elm != root ==> up == parent
        invariant old(turns) <= turns && old(rotations) <= rotations <= old(rotations) + 3
        invariant rotations == old(rotations) || (elm != null && elm in nodes && (elm.red || elm == root))
        invariant RemoveProgress(elm, top, turns - old(turns))
        decreases (elm == null || !elm.red) && elm != root, |order| - SizeOf(elm)
      {
        Climbs(up, elm);
        var done;
        done, top := RemoveFix(parent, elm);
        if done {
          up, elm := null, root;
          break;
        }
        elm := parent;
        parent := elm.parent;
        up, top := parent, elm;
      }
      if elm != null {
        BlackenLast(up, elm);
      }
      if top != null {
        StepsBound(top, turns - old(turns));
      }
    }

    // ---- RB_REMOVE ----

    ghost function Without(s: seq<Node>, i: int): seq<Node>
      requires 0 <= i < |s|
    {
      s[..i] + s[i + 1..]
    }

    /** What unlinking `e`, with at most the child `child`, does to every other node. */
    twostate predicate Unlinked(new e: Node, new child: Node?, new p: Node?)
      reads this`root, this`order, this`nodes, nodes
    {
      && e in old(nodes) && nodes == old(nodes) - {e} && 0 <= old(e.pos) < |old(order)|
        && order == Without(old(order), old(e.pos))
      && (p == null ==> root == child)
      && (p != null ==> root == old(root))
      && forall n :: n in nodes ==>
        && n.red == old(n.red) && n.bh == old(n.bh)
        && n.pos == Shift(old(n.pos), old(e.pos))
        && n.lo == Shift(old(n.lo), old(e.pos)) && n.hi == Shift(old(n.hi), old(e.pos))
        && n.parent == (if n == child then p else old(n.parent))
        && n.left == (if n == p && old(p.left) == e then child else old(n.left))
        && n.right == (if n == p && old(p.left) != e then child else old(n.right))
    }

    /** Removing the position `at` moves every later boundary one place to the front. */
    ghost function Shift(b: int, at: int): int {
      if b > at then b - 1 else b
    }

    ghost method ShiftAll(z: set<Node>, at: int)
      modifies z`pos, z`lo, z`hi
      ensures forall n :: n in z ==>
        n.pos == Shift(old(n.pos), at) && n.lo == Shift(old(n.lo), at) && n.hi == Shift(old(n.hi), at)
    {
      forall n | n in z {
        n.pos := Shift(n.pos, at);
      }
      forall n | n in z {
        n.lo := Shift(n.lo, at);
      }
      forall n | n in z {
        n.hi := Shift(n.hi, at);
      }
    }

    /** The parent and the child of a node with at most one child. */
    lemma Loose(e: Node, child: Node?)
      requires Linked() && e in nodes
      requires (e.left == null && child == e.right) || (e.right == null && child == e.left)
      ensures 0 <= e.pos < |order| && child != e && e.parent != e
      ensures child != null ==> child in nodes && child != e.parent
      ensures e.parent != null ==> e.parent in nodes && (e.parent.left == e) != (e.parent.right == e)
      ensures e.parent == null ==> root == e
    {
      assert LinksAt(e);
      assert child != null ==> LinksAt(child);
      assert e.parent != null ==> LinksAt(e.parent);
    }

    method Unlink(e: Node, child: Node?)
      requires Linked() && e in nodes
      requires (e.left == null && child == e.right) || (e.right == null && child == e.left)
      modifies `root, `order, `nodes, nodes
      ensures unchanged(e)
      ensures Unlinked(e, child, old(e.parent))
    {
      hide Linked, Without, Shift;
      Loose(e, child);
      if child != null {
        child.parent := e.parent;
      }
      Relink(e.parent, e, child);
      order, nodes := Without(order, e.pos), nodes - {e};
      ShiftAll(nodes, e.pos);
    }

    twostate lemma UnlinkedUp(new e: Node, new child: Node?)
      requires e in old(nodes) && old(Linked()) && child == old(if e.left == null then e.right else e.left)
      requires old(e.left == null || e.right == null)
      requires Unlinked(e, child, old(e.parent))
      ensures forall n {:trigger UpAt(n)} :: n in nodes ==> UpAt(n)
    {
      assert old(LinksAt(e));
      var p := old(e.parent);
      assert child != null ==> old(LinksAt(child));
      assert p != null ==> old(LinksAt(p));
      forall n | n in nodes
        ensures UpAt(n)
      {
        assert old(LinksAt(n));
      }
    }

    twostate lemma UnlinkedLeft(new e: Node, new child: Node?)
      requires e in old(nodes) && old(Linked()) && child == old(if e.left == null then e.right else e.left)
      requires old(e.left == null || e.right == null)
      requires Unlinked(e, child, old(e.parent))
      ensures forall n {:trigger LeftAt(n)} :: n in nodes ==> LeftAt(n)
    {
      assert old(LinksAt(e));
      var p := old(e.parent);
      assert child != null ==> old(LinksAt(child));
      forall n | n in nodes
        ensures LeftAt(n)
      {
        assert old(LinksAt(n));
        assert old(n.left) != null ==> old(LinksAt(n.left));
      }
    }

    twostate lemma UnlinkedRight(new e: Node, new child: Node?)
      requires e in old(nodes) && old(Linked()) && child == old(if e.left == null then e.right else e.left)
      requires old(e.left == null || e.right == null)
      requires Unlinked(e, child, old(e.parent))
      ensures forall n {:trigger RightAt(n)} :: n in nodes ==> RightAt(n)
    {
      assert old(LinksAt(e));
      var p := old(e.parent);
      assert child != null ==> old(LinksAt(child));
      forall n | n in nodes
        ensures RightAt(n)
      {
        assert old(LinksAt(n));
        assert old(n.right) != null ==> old(LinksAt(n.right));
      }
    }

    twostate lemma UnlinkedOrder(new e: Node, new child: Node?)
      requires e in old(nodes) && old(Linked()) && Unlinked(e, child, old(e.parent))
      requires old(e.left == null || e.right == null)
      ensures forall i :: 0 <= i < |order| ==> order[i] in nodes && order[i].pos == i
      ensures forall n :: n in nodes ==> 0 <= n.lo <= n.pos < n.hi <= |order| && order[n.pos] == n
    {
      assert old(LinksAt(e));
      forall i | 0 <= i < |order|
        ensures order[i] in nodes && order[i].pos == i
      {
        assert order[i] == old(order)[if i < old(e.pos) then i else i + 1];
      }
      forall n | n in nodes
        ensures 0 <= n.lo <= n.pos < n.hi <= |order| && order[n.pos] == n
      {
        assert old(LinksAt(n));
      }
    }

    twostate lemma UnlinkedLinked(new e: Node, new child: Node?)
      requires e in old(nodes) && old(Linked()) && child == old(if e.left == null then e.right else e.left)
      requires old(e.left == null || e.right == null)
      requires Unlinked(e, child, old(e.parent))
      ensures Linked()
    {
      assert old(LinksAt(e));
      assert child != null ==> old(LinksAt(child));
      UnlinkedUp(e, child);
      UnlinkedLeft(e, child);
      UnlinkedRight(e, child);
      UnlinkedOrder(e, child);
      forall n | n in nodes
        ensures LinksAt(n)
      {
        assert UpAt(n) && LeftAt(n) && RightAt(n);
      }
    }

    lemma WithoutSorted(s: seq<Node>, at: int)
      requires Sorted(s) && 0 <= at < |s|
      ensures Sorted(Without(s, at))
    {
      var t := Without(s, at);
      forall i, j | 0 <= i < j < |t|
        ensures t[i].key < t[j].key
      {
        assert t[i] == s[if i < at then i else i + 1] && t[j] == s[if j < at then j else j + 1];
      }
    }

    twostate lemma UnlinkedReds(new e: Node, new child: Node?)
      requires e in old(nodes) && old(Linked() && RedBut(null))
        && child == old(if e.left == null then e.right else e.left)
      requires old(e.left == null || e.right == null)
      requires Unlinked(e, child, old(e.parent)) && Linked()
      ensures RedBut(child) && (old(e.red) ==> RedBut(null))
    {
      assert old(LinksAt(e)) && old(RedAt(e, null));
      forall n | n in nodes
        ensures RedAt(n, child) && (old(e.red) ==> RedAt(n, null))
      {
        assert old(RedAt(n, null)) && LinksAt(n);
      }
    }

    twostate lemma UnlinkedBlacks(new e: Node, new child: Node?)
      requires e in old(nodes) && old(Linked() && BhBut({})) && child == old(if e.left == null then e.right else e.left)
      requires old(e.left == null || e.right == null) && (old(e.red) ==> !old(IsRed(e.left)) && !old(IsRed(e.right)))
      requires Unlinked(e, child, old(e.parent)) && Linked()
      ensures old(e.parent == null || e.red) ==> BhBut({})
      ensures old(e.parent != null && !e.red) ==>
        old(e.parent) in nodes && BhBut({old(e.parent)}) && Short(old(e.parent), child)
    {
      var p := old(e.parent);
      assert old(LinksAt(e)) && old(BhAt(e));
      assert child != null ==> old(BhAt(child));
      assert p != null ==> old(LinksAt(p)) && old(BhAt(p)) && LinksAt(p);
      forall n | n in nodes && (n == p ==> old(e.red))
        ensures BhAt(n)
      {
        assert old(BhAt(n)) && LinksAt(n);
      }
    }

    twostate lemma UnlinkedColors(new e: Node, new child: Node?)
      requires e in old(nodes) && old(Valid()) && child == old(if e.left == null then e.right else e.left)
      requires old(e.left == null || e.right == null)
      requires Unlinked(e, child, old(e.parent)) && Linked()
      ensures old(e.red) ==> Valid()
      ensures !old(e.red) ==> RemoveInv(old(e.parent), child)
    {
      assert old(LinksAt(e)) && old(RedAt(e, null));
      assert child != null ==> old(LinksAt(child)) && LinksAt(child);
      WithoutSorted(old(order), old(e.pos));
      UnlinkedReds(e, child);
      UnlinkedBlacks(e, child);
    }

    /** What putting `z` in the place of `y` does. */
    twostate predicate Replaced(new y: Node, new z: Node)
      reads this`root, this`order, this`nodes, nodes
    {
      && y in old(nodes) && z !in old(nodes) && nodes == old(nodes) - {y} + {z}
      && 0 <= old(y.pos) < |old(order)| && order == old(order)[old(y.pos) := z]
      && root == (if old(root) == y then z else old(root))
      && z.left == old(y.left) && z.right == old(y.right) && z.parent == old(y.parent) && z.red == old(y.red)
      && z.lo == old(y.lo) && z.pos == old(y.pos) && z.hi == old(y.hi) && z.bh == old(y.bh)
      && forall n :: n in nodes && n != z ==>
        && n.red == old(n.red) && n.bh == old(n.bh) && n.lo == old(n.lo) && n.pos == old(n.pos) && n.hi == old(n.hi)
        && n.left == (if old(n.left) == y then z else old(n.left))
        && n.right == (if old(n.right) == y then z else old(n.right))
        && n.parent == (if old(n.parent) == y then z else old(n.parent))
    }

    method CopyField(y: Node, z: Node)
      modifies z
      ensures z.left == old(y.left) && z.right == old(y.right) && z.parent == old(y.parent) && z.red == old(y.red)
      ensures z.lo == old(y.lo) && z.pos == old(y.pos) && z.hi == old(y.hi) && z.bh == old(y.bh)
    {
      z.left, z.right, z.parent, z.red := y.left, y.right, y.parent, y.red;
      z.lo, z.pos, z.hi, z.bh := y.lo, y.pos, y.hi, y.bh;
    }

    /** The nodes that point at `y`. */
    lemma Pointers(y: Node)
      requires Linked() && y in nodes
      ensures y.parent != null ==> y.parent in nodes && y.parent != y
      ensures y.parent == null <==> y == root
      ensures y.left != null ==> y.left in nodes && y.left != y && y.left != y.parent
      ensures y.right != null ==> y.right in nodes && y.right != y && y.right != y.parent && y.right != y.left
      ensures forall n :: n in nodes ==> (n.left == y || n.right == y) ==> n == y.parent
      ensures y.parent != null ==> (y.parent.left == y) != (y.parent.right == y)
      ensures forall n :: n in nodes ==> (n.parent == y <==> n == y.left || n == y.right)
    {
      assert LinksAt(y);
      assert y.left != null ==> LinksAt(y.left);
      assert y.right != null ==> LinksAt(y.right);
      assert y.parent != null ==> LinksAt(y.parent);
      forall n | n in nodes
        ensures (n.left == y || n.right == y) ==> n == y.parent
        ensures n.parent == y <==> (n == y.left || n == y.right)
      {
        assert LinksAt(n);
      }
    }

    method Replace(y: Node, z: Node)
      requires Linked() && y in nodes && z !in nodes && y.left != null && 0 <= y.pos < |order|
      modifies `root, `order, `nodes, nodes, z
      ensures unchanged(y)
      ensures Replaced(y, z)
    {
      Pointers(y);
      CopyField(y, z);
      Relink(y.parent, y, z);
      y.left.parent := z;
      if y.right != null {
        y.right.parent := z;
      }
      order, nodes := order[y.pos := z], nodes - {y} + {z};
    }

    twostate lemma ReplacedLinked(new y: Node, new z: Node)
      requires y in old(nodes) && old(Linked()) && Replaced(y, z)
      ensures Linked()
    {
      assert old(LinksAt(y));
      forall n | n in nodes
        ensures LinksAt(n)
      {
        if n != z {
          assert old(LinksAt(n));
        }
      }
    }

    twostate lemma ReplacedColors(new y: Node, new z: Node, new e: Node?)
      requires y in old(nodes) && old(Linked()) && Replaced(y, z) && Linked() && e != y && e != z
      requires e != null ==> e in old(nodes)
      ensures forall n :: n in nodes && n != z && old(BhAt(n)) ==> BhAt(n)
      ensures old(BhAt(y)) ==> BhAt(z)
      ensures old(RedBut(e)) ==> RedBut(e)
    {
      forall n | n in nodes && n != z && old(BhAt(n))
        ensures BhAt(n)
      {
        assert LinksAt(n);
      }
      assert LinksAt(z);
      if old(RedBut(e)) {
        assert old(RedAt(y, e));
        forall n | n in nodes
          ensures RedAt(n, e)
        {
          if n != z {
            assert old(RedAt(n, e));
          }
          assert LinksAt(n);
        }
      }
    }

    twostate lemma ReplacedBlacks(new y: Node, new z: Node, new p: Node)
      requires y in old(nodes) && p in old(nodes) && old(Linked() && BhBut({p})) && Replaced(y, z) && Linked()
      ensures BhBut({if p == y then z else p})
    {
      ReplacedColors(y, z, null);
      forall n | n in nodes && n != if p == y then z else p
        ensures BhAt(n)
      {
        assert n != z ==> old(BhAt(n));
        assert n == z ==> old(BhAt(y));
      }
    }

    twostate lemma ReplacedInv(new y: Node, new z: Node, new p: Node?, new child: Node?)
      requires y in old(nodes) && Replaced(y, z) && Linked() && Sorted(order) && child != y && child != z
      requires (child != null ==> child in old(nodes)) && (p != null ==> p in old(nodes)) && old(RemoveInv(p, child))
      requires p != null
      ensures RemoveInv(if p == y then z else p, child)
    {
      hide RedBut, BhBut, Sorted;
      var q := if p == y then z else p;
      ReplacedColors(y, z, child);
      ReplacedBlacks(y, z, p);
      assert LinksAt(q);
    }

    twostate lemma ReplacedValid(new y: Node, new z: Node)
      requires y in old(nodes) && old(Valid()) && Replaced(y, z) && Linked() && Sorted(order)
      ensures Valid()
    {
      ReplacedColors(y, z, null);
      forall n | n in nodes
        ensures BhAt(n)
      {
        assert n != z ==> old(BhAt(n));
        assert n == z ==> old(BhAt(y));
      }
    }

    /** Puts the unlinked node `z` in the place of `y`, in the middle of a removal. */
    method PutInPlace(y: Node, z: Node, ghost p: Node, ghost child: Node?, red: bool)
      requires Linked() && y in nodes && z !in nodes && y.left != null && 0 <= y.pos < |order|
      requires Sorted(order[y.pos := z]) && p in nodes && (child != null ==> child in nodes && child != y)
      requires if red then Valid() else RemoveInv(p, child)
      modifies `root, `order, `nodes, nodes, z
      ensures nodes == old(nodes) - {y} + {z} && order == old(order)[old(y.pos) := z]
      ensures if red then Valid() else RemoveInv(if p == y then z else p, child)
    {
      Replace(y, z);
      ReplacedLinked(y, z);
      if red {
        ReplacedValid(y, z);
      } else {
        ReplacedInv(y, z, p, child);
      }
    }

    lemma WithoutSuccessor(s: seq<Node>, at: int)
      requires 0 <= at && at + 1 < |s|
      ensures Without(s, at + 1)[at := s[at + 1]] == Without(s, at)
    {}

    /** What a removal needs to know of a node with two children and of its successor. */
    lemma Successor(y: Node, elm: Node)
      requires Linked() && y in nodes && elm in nodes && elm.left == null && elm.pos == y.pos + 1
      ensures elm != y && 0 <= y.pos && y.pos + 1 < |order| && order[y.pos + 1] == elm && order[y.pos] == y
      ensures elm.parent != null && elm.parent in nodes && elm.parent != elm && y.left != elm
      ensures elm.right != null ==> elm.right in nodes && elm.right != y
    {
      assert LinksAt(y) && LinksAt(elm);
      assert y.left != null ==> LinksAt(y.left);
      assert elm.right != null ==> LinksAt(elm.right);
    }

    /** Unlinks a node of a valid tree that has at most one child. */
    method Take(e: Node, child: Node?)
      requires Valid() && e in nodes && (e.left == null || e.right == null)
      requires child == if e.left == null then e.right else e.left
      modifies `root, `order, `nodes, nodes
      ensures Unlinked(e, child, old(e.parent)) && unchanged(e)
      ensures Linked() && Sorted(order) && (child != null ==> child in nodes)
      ensures if old(e.red) then Valid() else RemoveInv(old(e.parent), child)
    {
      assert LinksAt(e);
      assert child != null ==> LinksAt(child);
      Unlink(e, child);
      UnlinkedLinked(e, child);
      UnlinkedColors(e, child);
    }

    /** Unlinks the successor of `y` and puts it in the place of `y`. */
    method Splice(y: Node, elm: Node) returns (parent: Node?, child: Node?, red: bool)
      requires Valid() && y in nodes && elm in nodes && y.left != null && y.right != null
      requires elm.left == null && elm.pos == y.pos + 1
      modifies `root, `order, `nodes, nodes
      ensures nodes == old(nodes) - {y} && 0 <= old(y.pos) < |old(order)| && order == Without(old(order), old(y.pos))
      ensures if red then Valid() else RemoveInv(parent, child)
    {
      hide BhBut, RedBut, Sorted;
      Successor(y, elm);
      child, parent, red := elm.right, elm.parent, elm.red;
      ghost var above: Node := parent;
      Take(elm, child);
      if elm.parent == y {
        parent := elm;
      }
      WithoutSorted(old(order), old(y.pos));
      WithoutSuccessor(old(order), old(y.pos));
      PutInPlace(y, elm, above, child, red);
    }

    method Remove(e: Node) returns (removed: Node)
      requires Valid() && e in nodes
      modifies this, nodes
      ensures Valid() && removed == e && nodes == old(nodes) - {e}
      ensures 0 <= old(e.pos) < |old(order)| && old(order)[old(e.pos)] == e && order == Without(old(order), old(e.pos))
      ensures old(rotations) <= rotations <= old(rotations) + 3
      ensures old(turns) <= turns && Pow2(turns - old(turns)) <= |order| + 1
    {
      assert LinksAt(e);
      var child, parent: Node?, red;
      removed := e;
      if e.left != null && e.right != null {
        var elm: Node := e.right;
        assert LinksAt(elm);
        while elm.left != null
          invariant elm in nodes && elm.lo == e.pos + 1 && LinksAt(elm)
          decreases elm.hi - elm.lo
        {
          elm := elm.left;
          assert LinksAt(elm);
        }
        parent, child, red := Splice(e, elm);
      } else {
        child := if e.left == null then e.right else e.left;
        parent, red := e.parent, e.red;
        Take(e, child);
      }
      if !red {
        RemoveColor(parent, child);
      }
    }

    // ---- RB_INSERT ----

    ghost function With(s: seq<Node>, i: int, e: Node): seq<Node>
      requires 0 <= i <= |s|
    {
      s[..i] + [e] + s[i..]
    }

    /** A new position `at`, below the left or the right link of its parent, moves later boundaries one place on. */
    ghost function Grow(b: int, at: int, right: bool): int {
      if b > at || (b == at && right) then b + 1 else b
    }

    /** The gap below `p` where a node with position `at` hangs. */
    ghost predicate Gap(p: Node?, right: bool, at: int)
      reads this`root, this`order, this`nodes, nodes
    {
      && 0 <= at <= |order|
      && (p == null ==> root == null)
      && (p != null ==>
        p in nodes && (if right then p.right == null && at == p.pos + 1 else p.left == null && at == p.pos))
    }

    /** What hanging `e` into a gap does. */
    twostate predicate Attached(new e: Node, new p: Node?, new right: bool, new at: int)
      reads this`root, this`order, this`nodes, nodes
    {
      && nodes == old(nodes) + {e} && 0 <= at <= |old(order)| && order == With(old(order), at, e)
      && root == (if p == null then e else old(root))
      && e.left == null && e.right == null && e.parent == p && e.red
      && e.lo == at && e.pos == at && e.hi == at + 1 && e.bh == 0
      && forall n :: n in nodes && n != e ==>
        && n.red == old(n.red) && n.bh == old(n.bh) && n.parent == old(n.parent)
        && n.pos == Grow(old(n.pos), at, true)
        && n.lo == Grow(old(n.lo), at, right) && n.hi == Grow(old(n.hi), at, right)
        && n.left == (if n == p && !right then e else old(n.left))
        && n.right == (if n == p && right then e else old(n.right))
    }

    ghost method GrowAll(z: set<Node>, at: int, right: bool)
      modifies z`pos, z`lo, z`hi
      ensures forall n :: n in z ==>
        n.pos == Grow(old(n.pos), at, true) && n.lo == Grow(old(n.lo), at, right) && n.hi == Grow(old(n.hi), at, right)
    {
      forall n | n in z {
        n.pos := Grow(n.pos, at, true);
      }
      forall n | n in z {
        n.lo := Grow(n.lo, at, right);
      }
      forall n | n in z {
        n.hi := Grow(n.hi, at, right);
      }
    }

    method Set(elm: Node, parent: Node?, ghost at: int)
      modifies elm
      ensures elm.parent == parent && elm.left == null && elm.right == null && elm.red
      ensures elm.lo == at && elm.pos == at && elm.hi == at + 1 && elm.bh == 0
    {
      elm.parent, elm.left, elm.right, elm.red := parent, null, null, true;
      elm.lo, elm.pos, elm.hi, elm.bh := at, at, at + 1, 0;
    }

    method Attach(elm: Node, parent: Node?, comp: int, ghost at: int)
      requires elm !in nodes && Gap(parent, comp >= 0, at)
      modifies `root, `order, `nodes, nodes, elm
      ensures Attached(elm, parent, comp >= 0, at)
      ensures nodes == old(nodes) + {elm} && order == With(old(order), at, elm)
    {
      Set(elm, parent, at);
      if parent != null {
        if comp < 0 {
          parent.left := elm;
        } else {
          parent.right := elm;
        }
      } else {
        root := elm;
      }
      GrowAll(nodes, at, comp >= 0);
      order, nodes := With(order, at, elm), nodes + {elm};
    }

    twostate lemma AttachedSides(new e: Node, new p: Node?, new right: bool, new at: int)
      requires old(Linked()) && e !in old(nodes) && (p != null ==> p in old(nodes)) && old(Gap(p, right, at))
      requires Attached(e, p, right, at)
      ensures forall n {:trigger LeftAt(n)} :: n in nodes ==> LeftAt(n)
      ensures forall n {:trigger RightAt(n)} :: n in nodes ==> RightAt(n)
    {
      assert p != null ==> old(LinksAt(p));
      forall n | n in nodes
        ensures LeftAt(n)
      {
        assert n != e ==> old(LinksAt(n));
      }
      forall n | n in nodes
        ensures RightAt(n)
      {
        assert n != e ==> old(LinksAt(n));
      }
    }

    twostate lemma AttachedOrder(new e: Node, new p: Node?, new right: bool, new at: int)
      requires old(Linked()) && e !in old(nodes) && Attached(e, p, right, at)
      ensures forall i :: 0 <= i < |order| ==> order[i] in nodes && order[i].pos == i
      ensures forall n :: n in nodes ==> 0 <= n.lo <= n.pos < n.hi <= |order| && order[n.pos] == n
    {
      forall i | 0 <= i < |order|
        ensures order[i] in nodes && order[i].pos == i
      {
        assert i != at ==> order[i] == old(order)[if i < at then i else i - 1];
      }
      forall n | n in nodes
        ensures 0 <= n.lo <= n.pos < n.hi <= |order| && order[n.pos] == n
      {
        assert n != e ==> old(LinksAt(n));
      }
    }

    twostate lemma AttachedLinked(new e: Node, new p: Node?, new right: bool, new at: int)
      requires old(Linked()) && e !in old(nodes) && (p != null ==> p in old(nodes)) && old(Gap(p, right, at))
      requires Attached(e, p, right, at)
      ensures Linked()
    {
      assert p != null ==> old(LinksAt(p));
      AttachedSides(e, p, right, at);
      AttachedOrder(e, p, right, at);
      forall n | n in nodes
        ensures LinksAt(n)
      {
        assert n != e ==> old(LinksAt(n));
        assert LeftAt(n) && RightAt(n);
      }
    }

    lemma WithSorted(s: seq<Node>, at: int, e: Node)
      requires Sorted(s) && 0 <= at <= |s|
      requires forall j :: 0 <= j < |s| ==> if j < at then s[j].key < e.key else e.key < s[j].key
      ensures Sorted(With(s, at, e))
    {
      var t := With(s, at, e);
      forall i, j | 0 <= i < j < |t|
        ensures t[i].key < t[j].key
      {
        assert i != at ==> t[i] == s[if i < at then i else i - 1];
        assert j != at ==> t[j] == s[if j < at then j else j - 1];
      }
    }

    twostate lemma AttachedColors(new e: Node, new p: Node?, new right: bool, new at: int)
      requires old(Valid()) && e !in old(nodes) && (p != null ==> p in old(nodes)) && old(Gap(p, right, at))
      requires Attached(e, p, right, at) && Linked() && Sorted(order)
      ensures InsertInv(e)
    {
      assert p != null ==> old(BhAt(p));
      forall n | n in nodes
        ensures BhAt(n) && RedAt(n, e)
      {
        assert n != e ==> old(BhAt(n)) && old(RedAt(n, null));
      }
      assert p == null ==> |order| == 1;
    }

    /** `k` belongs between the positions `lo` and `hi` of the order. */
    ghost predicate Between(k: int, lo: int, hi: int)
      reads this
    {
      && 0 <= lo <= hi <= |order|
      && (forall j :: 0 <= j < lo ==> order[j].key < k)
      && (forall j :: hi <= j < |order| ==> k < order[j].key)
    }

    method Insert(elm: Node) returns (found: Node?, ghost at: int)
      requires Valid() && elm !in nodes
      modifies this, nodes, elm
      ensures Valid()
      ensures found != null ==>
        found in old(order) && found.key == elm.key && unchanged(this) && unchanged(nodes) && unchanged(elm)
      ensures found == null ==>
        0 <= at <= |old(order)| && nodes == old(nodes) + {elm} && order == With(old(order), at, elm)
      ensures old(rotations) <= rotations <= old(rotations) + 2
      ensures old(turns) <= turns && Pow2(turns - old(turns)) <= |order| + 1
    {
      hide BhBut, RedBut, InsertInv, Attached, With;
      at := 0;
      var tmp := root;
      var parent: Node? := null;
      var comp := 0;
      ghost var lo, hi := 0, |order|;
      while tmp != null
        invariant Between(elm.key, lo, hi)
        invariant tmp != null ==> tmp in nodes && tmp.lo == lo && tmp.hi == hi
        invariant tmp == null ==> lo == hi && Gap(parent, comp >= 0, lo)
        decreases if tmp == null then 0 else tmp.hi - tmp.lo
      {
        parent := tmp;
        assert LinksAt(parent);
        comp := Compare(elm.key, parent.key);
        if comp < 0 {
          tmp, hi := tmp.left, tmp.pos;
        } else if comp > 0 {
          tmp, lo := tmp.right, tmp.pos + 1;
        } else {
          return tmp, at;
        }
        assert tmp != null ==> LinksAt(tmp);
      }
      at := lo;
      WithSorted(order, at, elm);
      Attach(elm, parent, comp, at);
      AttachedLinked(elm, parent, comp >= 0, at);
      AttachedColors(elm, parent, comp >= 0, at);
      InsertColor(elm);
      found := null;
    }

    // ---- RB_FIND, RB_NFIND, RB_NEXT, RB_PREV, RB_MINMAX, RB_FOREACH ----

    method Find(key: int) returns (found: Node?)
      requires Valid()
      ensures found != null ==> found in order && found.key == key
      ensures found == null ==> forall n :: n in order ==> n.key != key
    {
      var tmp := root;
      ghost var lo, hi := 0, |order|;
      while tmp != null
        invariant Between(key, lo, hi)
        invariant tmp != null ==> tmp in nodes && tmp.lo == lo && tmp.hi == hi
        invariant tmp == null ==> lo == hi
        decreases if tmp == null then 0 else tmp.hi - tmp.lo
      {
        assert LinksAt(tmp);
        assert tmp.left != null ==> LinksAt(tmp.left);
        assert tmp.right != null ==> LinksAt(tmp.right);
        var comp := Compare(key, tmp.key);
        if comp < 0 {
          hi := tmp.pos;
          tmp := tmp.left;
        } else if comp > 0 {
          lo := tmp.pos + 1;
          tmp := tmp.right;
        } else {
          return tmp;
        }
      }
      found := null;
    }

    method Nfind(key: int) returns (res: Node?)
      requires Valid()
      ensures res == null ==> forall n :: n in order ==> n.key < key
      ensures res != null ==>
        res in order && key <= res.key && forall n :: n in order && key <= n.key ==> res.key <= n.key
    {
      var tmp := root;
      res := null;
      ghost var lo, hi := 0, |order|;
      while tmp != null
        invariant Between(key, lo, hi)
        invariant tmp != null ==> tmp in nodes && tmp.lo == lo && tmp.hi == hi
        invariant tmp == null ==> lo == hi
        invariant if hi == |order| then res == null else res == order[hi]
        decreases if tmp == null then 0 else tmp.hi - tmp.lo
      {
        assert LinksAt(tmp);
        assert tmp.left != null ==> LinksAt(tmp.left);
        assert tmp.right != null ==> LinksAt(tmp.right);
        var comp := Compare(key, tmp.key);
        if comp < 0 {
          hi := tmp.pos;
          res := tmp;
          tmp := tmp.left;
        } else if comp > 0 {
          lo := tmp.pos + 1;
          tmp := tmp.right;
        } else {
          return tmp;
        }
      }
    }

    method Next(e: Node) returns (r: Node?)
      requires Linked() && e in nodes
      ensures 0 <= e.pos < |order| && order[e.pos] == e
      ensures r == if e.pos + 1 < |order| then order[e.pos + 1] else null
    {
      assert LinksAt(e);
      if e.right != null {
        r := e.right;
        while r.left != null
          invariant r != null && r in nodes && LinksAt(r) && r.lo == e.pos + 1
          decreases if r == null then 0 else r.hi - r.lo
        {
          r := r.left;
          assert LinksAt(r);
        }
      } else {
        if e.parent != null && e == e.parent.left {
          assert LinksAt(e.parent);
          r := e.parent;
        } else {
          r := e;
          while r.parent != null && r == r.parent.right
            invariant r != null && r in nodes && LinksAt(r) && r.hi == e.pos + 1
            decreases if r == null then 0 else |order| - (r.hi - r.lo)
          {
            r := r.parent;
            assert LinksAt(r);
          }
          assert r.parent != null ==> LinksAt(r.parent);
          r := r.parent;
        }
      }
    }

    method Prev(e: Node) returns (r: Node?)
      requires Linked() && e in nodes
      ensures 0 <= e.pos < |order| && order[e.pos] == e
      ensures r == if e.pos > 0 then order[e.pos - 1] else null
    {
      assert LinksAt(e);
      if e.left != null {
        r := e.left;
        while r.right != null
          invariant r != null && r in nodes && LinksAt(r) && r.hi == e.pos
          decreases if r == null then 0 else r.hi - r.lo
        {
          r := r.right;
          assert LinksAt(r);
        }
      } else {
        if e.parent != null && e == e.parent.right {
          assert LinksAt(e.parent);
          r := e.parent;
        } else {
          r := e;
          while r.parent != null && r == r.parent.left
            invariant r != null && r in nodes && LinksAt(r) && r.lo == e.pos
            decreases if r == null then 0 else |order| - (r.hi - r.lo)
          {
            r := r.parent;
            assert LinksAt(r);
          }
          assert r.parent != null ==> LinksAt(r.parent);
          r := r.parent;
        }
      }
    }

    method MinMax(val: int) returns (parent: Node?)
      requires Linked()
      ensures |order| == 0 ==> parent == null
      ensures |order| > 0 ==> parent == if val < 0 then order[0] else order[|order| - 1]
    {
      var tmp := root;
      parent := null;
      while tmp != null
        invariant tmp != null ==> tmp in nodes && LinksAt(tmp) && if val < 0 then tmp.lo == 0 else tmp.hi == |order|
        invariant tmp == null && |order| > 0 ==> parent == if val < 0 then order[0] else order[|order| - 1]
        invariant tmp == null && |order| == 0 ==> parent == null
        decreases if tmp == null then 0 else tmp.hi - tmp.lo
      {
        parent := tmp;
        tmp := if val < 0 then tmp.left else tmp.right;
        assert tmp != null ==> LinksAt(tmp);
      }
    }

    /** RB_FOREACH visits every node once, in order. */
    method Foreach() returns (visited: seq<Node>)
      requires Linked()
      ensures visited == order
    {
      visited := [];
      var x := MinMax(-1);
      while x != null
        invariant |visited| <= |order| && visited == order[..|visited|]
        invariant if |visited| < |order| then x == order[|visited|] else x == null
        decreases |order| - |visited|
      {
        visited := visited + [x];
        x := Next(x);
      }
    }

    // ---- The ghost bookkeeping means what it should ----

    ghost function ShapeOf(n: Node?): Shape
      requires Linked() && (n != null ==> n in nodes)
      reads this`root, this`order, this`nodes, nodes
      decreases if n == null then 0 else n.hi - n.lo
    {
      if n == null then Nil
      else
        assert LinksAt(n) && (n.left != null ==> LinksAt(n.left)) && (n.right != null ==> LinksAt(n.right));
        Bin(ShapeOf(n.left), n, n.red, ShapeOf(n.right))
    }

    lemma {:induction false} ShapeInOrder(n: Node)
      requires Linked() && n in nodes && 0 <= n.lo <= n.hi <= |order|
      ensures InOrder(ShapeOf(n)) == order[n.lo..n.hi]
      decreases n.hi - n.lo
    {
      assert LinksAt(n);
      if n.left != null {
        assert LinksAt(n.left);
        ShapeInOrder(n.left);
      }
      if n.right != null {
        assert LinksAt(n.right);
        ShapeInOrder(n.right);
      }
      SliceAt(order, n.lo, n.pos, n.hi);
    }

    lemma {:induction false} ShapeColors(n: Node)
      requires Linked() && BhBut({}) && RedBut(null) && n in nodes
      ensures NoRedRed(ShapeOf(n)) && EveryPath(ShapeOf(n), BhOf(n))
      decreases n.hi - n.lo
    {
      assert LinksAt(n) && BhAt(n) && RedAt(n, null);
      if n.left != null {
        assert LinksAt(n.left);
        ShapeColors(n.left);
      }
      if n.right != null {
        assert LinksAt(n.right);
        ShapeColors(n.right);
      }
    }

    /** A valid tree is a red-black tree: its links spell a search tree that holds exactly `order`. */
    lemma ValidMeansRedBlack()
      requires Valid()
      ensures IsRedBlack(ShapeOf(root)) && InOrder(ShapeOf(root)) == order
    {
      if root != null {
        ShapeInOrder(root);
        ShapeColors(root);
      }
      assert EveryPath(ShapeOf(root), BhOf(root));
    }

    /** No search, and no climb back to the root, is longer than 2 * log2(n + 1). */
    lemma ValidMeansShallow()
      requires Valid()
      ensures Pow2(Height(ShapeOf(root))) <= Square(|order| + 1)
    {
      var s := ShapeOf(root);
      ValidMeansRedBlack();
      SizeIsLength(s);
      HeightBound(s);
    }

    /** The members are exactly what the order lists, and parent links mirror child links. */
    lemma ValidMeansMirrored(n: Node)
      requires Valid()
      ensures n in nodes <==> n in order
      ensures n in nodes ==>
        && (n.left != null ==> n.left.parent == n) && (n.right != null ==> n.right.parent == n)
        && (n.parent == null <==> n == root)
        && (n.parent != null ==> n.parent in nodes && (n.parent.left == n || n.parent.right == n))
    {
      if n in nodes {
        assert LinksAt(n);
      }
    }
  }

  lemma SliceAt(s: seq<Node>, lo: int, at: int, hi: int)
    requires 0 <= lo <= at < hi <= |s|
    ensures s[lo..hi] == s[lo..at] + [s[at]] + s[at + 1..hi]
  {}

  lemma {:induction false} SizeIsLength(s: Shape)
    ensures Size(s) == |InOrder(s)|
  {
    match s
    case Nil =>
    case Bin(l, _, _, r) =>
      SizeIsLength(l);
      SizeIsLength(r);
  }
}
