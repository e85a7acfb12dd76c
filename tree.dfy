/**
 * The binary tree of the struct lessons: a node owns a payload and optional
 * boxed left and right children; `insert` walks down in place, lesser
 * payloads to the left and the rest to the right, and hangs a new leaf where
 * the walk falls off the tree; `visit` goes left, node, right.
 *
 * The tree is kept with `String` payloads, compared as Rust compares strings.
 */
module BinaryTree {

  // ---------------------------------------------------------------------------
  // String order

  /** Rust's `<` on strings: lexicographic by character, a proper prefix first. */
  predicate Less(a: string, b: string) {
    if a == [] then b != []
    else if b == [] then false
    else if a[0] != b[0] then a[0] < b[0]
    else Less(a[1..], b[1..])
  }

  lemma {:induction false} LessIrreflexive(a: string)
    ensures !Less(a, a)
  {
    if a != [] {
      LessIrreflexive(a[1..]);
    }
  }

  lemma {:induction false} LessTransitive(a: string, b: string, c: string)
    requires Less(a, b) && Less(b, c)
    ensures Less(a, c)
  {
    if a != [] && b != [] && c != [] && a[0] == b[0] && b[0] == c[0] {
      LessTransitive(a[1..], b[1..], c[1..]);
    }
  }

  /** Any two different strings are ordered one way or the other, and never both. */
  lemma {:induction false} LessTotal(a: string, b: string)
    ensures a == b || Less(a, b) || Less(b, a)
    ensures !(Less(a, b) && Less(b, a))
  {
    if a != [] && b != [] && a[0] == b[0] {
      LessTotal(a[1..], b[1..]);
      if a[1..] == b[1..] {
        assert a == [a[0]] + a[1..] && b == [b[0]] + b[1..];
      }
    }
  }

  /** Less than `p`, then not less than `p`: strictly in order. */
  lemma BelowThenAbove(a: string, p: string, b: string)
    requires Less(a, p) && !Less(b, p)
    ensures Less(a, b) && !Less(b, a)
  {
    LessTotal(b, p);
    LessTotal(a, b);
    if b != p {
      LessTransitive(a, p, b);
    }
  }

  // ---------------------------------------------------------------------------
  // The tree as a value

  /** `NodeBox`: no node, or a node with its payload and two subtrees. */
  datatype Tree = Nil | Branch(left: Tree, payload: string, right: Tree)

  /** A new leaf. */
  function Leaf(s: string): Tree { Branch(Nil, s, Nil) }

  /** The payloads of a tree, with their multiplicity. */
  function Payloads(t: Tree): multiset<string> {
    match t
    case Nil => multiset{}
    case Branch(l, p, r) => Payloads(l) + multiset{p} + Payloads(r)
  }

  /** `insert`, on values: down to the left when less, otherwise to the right. */
  function InsertInto(t: Tree, data: string): Tree {
    match t
    case Nil => Leaf(data)
    case Branch(l, p, r) =>
      if Less(data, p) then Branch(InsertInto(l, data), p, r) else Branch(l, p, InsertInto(r, data))
  }

  /** `visit`: the left subtree, the payload, the right subtree. */
  function InOrder(t: Tree): seq<string> {
    match t
    case Nil => []
    case Branch(l, p, r) => InOrder(l) + [p] + InOrder(r)
  }

  /** The search-tree order: everything left is less than the payload, nothing right is. */
  predicate Ordered(t: Tree) {
    match t
    case Nil => true
    case Branch(l, p, r) =>
      Ordered(l) && Ordered(r) &&
      (forall y | y in Payloads(l) :: Less(y, p)) &&
      (forall y | y in Payloads(r) :: !Less(y, p))
  }

  predicate Sorted(s: seq<string>) {
    forall i, j | 0 <= i < j < |s| :: !Less(s[j], s[i])
  }

  function Size(t: Tree): nat {
    match t
    case Nil => 0
    case Branch(l, _, r) => Size(l) + 1 + Size(r)
  }

  /** `insert` adds exactly the one payload and keeps every other. */
  lemma {:induction false} InsertPayloads(t: Tree, data: string)
    ensures Payloads(InsertInto(t, data)) == Payloads(t) + multiset{data}
  {
    match t
    case Nil =>
    case Branch(l, p, r) =>
      if Less(data, p) {
        var l' := InsertInto(l, data);
        InsertPayloads(l, data);
        calc {
          Payloads(InsertInto(t, data));
          Payloads(Branch(l', p, r));
          Payloads(l') + multiset{p} + Payloads(r);
          Payloads(l) + multiset{p} + Payloads(r) + multiset{data};
        }
      } else {
        var r' := InsertInto(r, data);
        InsertPayloads(r, data);
        calc {
          Payloads(InsertInto(t, data));
          Payloads(Branch(l, p, r'));
          Payloads(l) + multiset{p} + Payloads(r');
          Payloads(l) + multiset{p} + Payloads(r) + multiset{data};
        }
      }
  }

  /** `insert` grows the tree by exactly one node. */
  lemma {:induction false} InsertSize(t: Tree, data: string)
    ensures Size(InsertInto(t, data)) == Size(t) + 1
  {
    match t
    case Nil =>
    case Branch(l, p, r) =>
      if Less(data, p) {
        InsertSize(l, data);
      } else {
        InsertSize(r, data);
      }
  }

  /** `insert` keeps the search-tree order. */
  lemma {:induction false} InsertOrdered(t: Tree, data: string)
    requires Ordered(t)
    ensures Ordered(InsertInto(t, data))
  {
    match t
    case Nil =>
    case Branch(l, p, r) =>
      if Less(data, p) {
        InsertPayloads(l, data);
        InsertOrdered(l, data);
      } else {
        InsertPayloads(r, data);
        InsertOrdered(r, data);
      }
  }

  /** The payloads `visit` goes through are the tree's payloads. */
  lemma {:induction false} InOrderPayloads(t: Tree)
    ensures multiset(InOrder(t)) == Payloads(t)
    ensures |InOrder(t)| == Size(t)
  {
    match t
    case Nil =>
    case Branch(l, p, r) =>
      InOrderPayloads(l);
      InOrderPayloads(r);
  }

  /** In-order traversal of a search tree comes out sorted. */
  lemma {:induction false} InOrderSorted(t: Tree)
    requires Ordered(t)
    ensures Sorted(InOrder(t))
  {
    match t
    case Nil =>
    case Branch(l, p, r) =>
      InOrderSorted(l);
      InOrderSorted(r);
      InOrderPayloads(l);
      InOrderPayloads(r);
      var a, b := InOrder(l), InOrder(r);
      var s := a + [p] + b;
      forall i, j | 0 <= i < j < |s| ensures !Less(s[j], s[i]) {
        SortedPiece(a, p, b, i, j);
      }
  }

  lemma SortedPiece(a: seq<string>, p: string, b: seq<string>, i: int, j: int)
    requires Sorted(a) && Sorted(b)
    requires forall y | y in multiset(a) :: Less(y, p)
    requires forall y | y in multiset(b) :: !Less(y, p)
    requires 0 <= i < j < |a + [p] + b|
    ensures !Less((a + [p] + b)[j], (a + [p] + b)[i])
  {
    var s := a + [p] + b;
    if j < |a| {
    } else if i < |a| {
      assert s[i] in multiset(a);
      if j == |a| {
        LessTotal(s[i], p);
      } else {
        assert s[j] in multiset(b);
        BelowThenAbove(s[i], p, s[j]);
      }
    } else if i == |a| {
      assert s[j] in multiset(b);
      LessTotal(s[j], p);
    }
  }

  // ---------------------------------------------------------------------------
  // The tree in the heap

  /** The value of an optional child. */
  ghost function TreeOf(n: Node?): Tree
    reads n
  {
    if n == null then Nil else n.Value
  }

  /** `Node`: a payload and two optional boxed children, each owned by this node alone. */
  class Node {
    var payload: string
    var left: Node?
    var right: Node?
    ghost var Value: Tree
    ghost var Repr: set<object>

    ghost predicate Valid()
      reads this, Repr
      decreases Repr
    {
      this in Repr &&
      (left != null ==>
        left in Repr && left.Repr <= Repr && this !in left.Repr && left.Valid()) &&
      (right != null ==>
        right in Repr && right.Repr <= Repr && this !in right.Repr && right.Valid()) &&
      (left != null && right != null ==> left.Repr !! right.Repr) &&
      Value == Branch(TreeOf(left), payload, TreeOf(right))
    }

    /** `Node::new`: a leaf holding `s`. */
    constructor (s: string)
      ensures Valid() && fresh(Repr)
      ensures Value == Leaf(s)
    {
      payload, left, right := s, null, null;
      Value := Leaf(s);
      Repr := {this};
    }

    /** `set_left`: the node becomes the left child, replacing any earlier one. */
    method SetLeft(node: Node)
      requires Valid() && node.Valid() && node.Repr !! Repr
      modifies this
      ensures Valid() && Repr <= old(Repr) + node.Repr
      ensures left == node && payload == old(payload) && right == old(right)
      ensures Value == Branch(node.Value, old(payload), old(Value).right)
    {
      left := node;
      Value := Branch(node.Value, payload, TreeOf(right));
      Repr := {this} + node.Repr + (if right == null then {} else right.Repr);
    }

    /** `set_right`: the node becomes the right child, replacing any earlier one. */
    method SetRight(node: Node)
      requires Valid() && node.Valid() && node.Repr !! Repr
      modifies this
      ensures Valid() && Repr <= old(Repr) + node.Repr
      ensures right == node && payload == old(payload) && left == old(left)
      ensures Value == Branch(old(Value).left, old(payload), node.Value)
    {
      right := node;
      Value := Branch(TreeOf(left), payload, node.Value);
      Repr := {this} + node.Repr + (if left == null then {} else left.Repr);
    }

    /** `insert`: down the tree in place, and a new leaf where the walk ends. */
    method Insert(data: string)
      requires Valid()
      modifies Repr
      ensures Valid() && fresh(Repr - old(Repr))
      ensures payload == old(payload)
      ensures Value == InsertInto(old(Value), data)
      decreases Repr
    {
      if Less(data, payload) {
        if left != null {
          left.Insert(data);
          Repr := Repr + left.Repr;
          Value := Branch(left.Value, payload, TreeOf(right));
        } else {
          var n := new Node(data);
          SetLeft(n);
        }
      } else {
        if right != null {
          right.Insert(data);
          Repr := Repr + right.Repr;
          Value := Branch(TreeOf(left), payload, right.Value);
        } else {
          var n := new Node(data);
          SetRight(n);
        }
      }
    }

    /** The `{:#?}` dump: the whole tree under this node, as a value. */
    method Dump() returns (t: Tree)
      requires Valid()
      ensures t == Value
      decreases Repr
    {
      var l, r := Nil, Nil;
      if left != null {
        l := left.Dump();
      }
      if right != null {
        r := right.Dump();
      }
      t := Branch(l, payload, r);
    }

    /** `visit`: the payloads in the order they are printed. */
    method Visit() returns (s: seq<string>)
      requires Valid()
      ensures s == InOrder(Value)
      decreases Repr
    {
      s := [];
      if left != null {
        s := left.Visit();
      }
      s := s + [payload];
      if right != null {
        var t := right.Visit();
        s := s + t;
      }
    }
  }

  // ---------------------------------------------------------------------------
  // The lessons' trees

  /** `root.set_left(Node::new("left")); root.set_right(Node::new("right"))`. */
  method SetChildrenExample() returns (t: Tree)
    ensures t == Branch(Leaf("left"), "root", Leaf("right"))
  {
    var root := new Node("root");
    var l := new Node("left");
    root.SetLeft(l);
    var r := new Node("right");
    root.SetRight(r);
    t := root.Dump();
  }

  /** How the lesson's payloads compare with the payloads already in the tree. */
  lemma ExampleOrder()
    ensures Less("one", "root") && !Less("two", "root")
    ensures Less("four", "root") && Less("four", "one")
  {
    assert "one"[0] < "root"[0] && "root"[0] < "two"[0];
    assert "four"[0] < "root"[0] && "four"[0] < "one"[0];
  }

  /** The tree the three inserts build under "root". */
  lemma ExampleTree()
    ensures InsertInto(InsertInto(InsertInto(Leaf("root"), "one"), "two"), "four")
      == Branch(Branch(Leaf("four"), "one", Nil), "root", Leaf("two"))
  {
    ExampleOrder();
    var t1 := InsertInto(Leaf("root"), "one");
    assert t1 == Branch(Leaf("one"), "root", Nil);
    var t2 := InsertInto(t1, "two");
    assert t2 == Branch(Leaf("one"), "root", Leaf("two"));
  }

  /** Inserting "one", "two" and "four" under "root", then visiting. */
  method InsertExample() returns (t: Tree, visited: seq<string>)
    ensures t == Branch(Branch(Leaf("four"), "one", Nil), "root", Leaf("two"))
    ensures visited == ["four", "one", "root", "two"]
  {
    var root := new Node("root");
    root.Insert("one");
    root.Insert("two");
    root.Insert("four");
    ExampleTree();
    t := root.Dump();
    visited := root.Visit();
  }
}
