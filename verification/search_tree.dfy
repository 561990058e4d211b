/**
 * The unbalanced binary search tree of graph.py:41-80: heap nodes linked by
 * `left`/`right`, `insert_node` descending and relinking in place,
 * `in_order_traversal`, `create_binary_search_tree` inserting node labels one
 * by one, and `search_node` walking a cursor down the tree.
 *
 * Keys are integers here: insertion and search compare with the same order.
 * The source compares raw labels on insertion but their integer values on
 * search; `InsertLabel` and `LabelOrderMismatch` at the end show what that does.
 */
module SearchTree {

  datatype Tree<K> = Leaf | Node(left: Tree<K>, key: K, right: Tree<K>)

  function Elements<K>(t: Tree<K>): multiset<K> {
    match t
    case Leaf => multiset{}
    case Node(l, k, r) => Elements(l) + multiset{k} + Elements(r)
  }

  /** Smaller keys to the left, keys at least as large (duplicates included) to the right. */
  ghost predicate IsBst(t: Tree<int>) {
    match t
    case Leaf => true
    case Node(l, k, r) =>
      && IsBst(l) && IsBst(r)
      && (forall x :: x in Elements(l) ==> x < k)
      && (forall x :: x in Elements(r) ==> k <= x)
  }

  predicate Sorted(s: seq<int>) {
    forall i, j :: 0 <= i < j < |s| ==> s[i] <= s[j]
  }

  /** `insert_node` on the tree's value: smaller values go left, equal or larger ones right. */
  function Insert(t: Tree<int>, x: int): Tree<int> {
    match t
    case Leaf => Node(Leaf, x, Leaf)
    case Node(l, k, rt) =>
      if x < k then Node(Insert(l, x), k, rt) else Node(l, k, Insert(rt, x))
  }

  /** Insertion adds exactly one occurrence of the value and loses nothing. */
  lemma {:induction false} InsertAddsOne(t: Tree<int>, x: int)
    ensures Elements(Insert(t, x)) == Elements(t) + multiset{x}
  {
    match t
    case Leaf =>
    case Node(l, k, r) =>
      if x < k {
        InsertAddsOne(l, x);
      } else {
        InsertAddsOne(r, x);
      }
  }

  lemma InsertStaysBelow(t: Tree<int>, x: int, k: int)
    requires forall y :: y in Elements(t) ==> y < k
    requires x < k
    ensures forall y :: y in Elements(Insert(t, x)) ==> y < k
  {
    InsertAddsOne(t, x);
  }

  lemma InsertStaysAbove(t: Tree<int>, x: int, k: int)
    requires forall y :: y in Elements(t) ==> k <= y
    requires k <= x
    ensures forall y :: y in Elements(Insert(t, x)) ==> k <= y
  {
    InsertAddsOne(t, x);
  }

  /** Insertion keeps a search tree ordered. */
  lemma {:induction false} InsertKeepsOrder(t: Tree<int>, x: int)
    requires IsBst(t)
    ensures IsBst(Insert(t, x))
  {
    match t
    case Leaf =>
    case Node(l, k, r) =>
      if x < k {
        InsertKeepsOrder(l, x);
        InsertStaysBelow(l, x, k);
        assert Insert(t, x) == Node(Insert(l, x), k, r);
      } else {
        InsertKeepsOrder(r, x);
        InsertStaysAbove(r, x, k);
        assert Insert(t, x) == Node(l, k, Insert(r, x));
      }
  }

  /** The keys left subtree first, then the node, then the right subtree. */
  function Flatten(t: Tree<int>): seq<int> {
    match t
    case Leaf => []
    case Node(l, k, r) => Flatten(l) + [k] + Flatten(r)
  }

  /** The keys inserted one after another into an empty tree. */
  function InsertAll(xs: seq<int>): Tree<int> {
    if xs == [] then Leaf else Insert(InsertAll(xs[..|xs| - 1]), xs[|xs| - 1])
  }

  /** The path `search_node` follows: stop on an equal key, else go right past a smaller one, left past a larger. */
  function Walk(t: Tree<int>, target: int): bool {
    match t
    case Leaf => false
    case Node(l, k, r) =>
      if k == target then true else if k < target then Walk(r, target) else Walk(l, target)
  }

  lemma SortedAround(a: seq<int>, k: int, b: seq<int>)
    requires Sorted(a) && Sorted(b)
    requires forall i :: 0 <= i < |a| ==> a[i] <= k
    requires forall j :: 0 <= j < |b| ==> k <= b[j]
    ensures Sorted(a + [k] + b)
  {
    var s := a + [k] + b;
    forall i, j | 0 <= i < j < |s| ensures s[i] <= s[j] {
      if j < |a| {
      } else if i < |a| {
        assert s[i] == a[i];
        if j > |a| { assert s[j] == b[j - |a| - 1]; }
      } else if i == |a| {
        assert s[j] == b[j - |a| - 1];
      } else {
        assert s[i] == b[i - |a| - 1] && s[j] == b[j - |a| - 1];
      }
    }
  }

  /** The in-order sequence is a permutation of the tree's keys, sorted when the tree is ordered. */
  lemma {:induction false} FlattenSortedPermutation(t: Tree<int>)
    ensures multiset(Flatten(t)) == Elements(t)
    ensures IsBst(t) ==> Sorted(Flatten(t))
  {
    match t
    case Leaf =>
    case Node(l, k, r) =>
      FlattenSortedPermutation(l);
      FlattenSortedPermutation(r);
      var fl, fr := Flatten(l), Flatten(r);
      assert Flatten(t) == fl + [k] + fr;
      assert multiset(fl + [k] + fr) == multiset(fl) + multiset{k} + multiset(fr);
      if IsBst(t) {
        forall i | 0 <= i < |fl| ensures fl[i] <= k {
          assert fl[i] in multiset(fl);
        }
        forall j | 0 <= j < |fr| ensures k <= fr[j] {
          assert fr[j] in multiset(fr);
        }
        SortedAround(fl, k, fr);
      }
  }

  /** Inserting a list into an empty tree gives an ordered tree. */
  lemma {:induction false} InsertAllOrdered(xs: seq<int>)
    ensures IsBst(InsertAll(xs))
    decreases |xs|
  {
    if xs != [] {
      InsertAllOrdered(xs[..|xs| - 1]);
      InsertKeepsOrder(InsertAll(xs[..|xs| - 1]), xs[|xs| - 1]);
    }
  }

  /** Inserting a list into an empty tree keeps exactly its elements, duplicates included. */
  lemma {:induction false} InsertAllElements(xs: seq<int>)
    ensures Elements(InsertAll(xs)) == multiset(xs)
    decreases |xs|
  {
    if xs != [] {
      var init, x := xs[..|xs| - 1], xs[|xs| - 1];
      InsertAllElements(init);
      InsertAddsOne(InsertAll(init), x);
      assert xs == init + [x];
    }
  }

  /** A tree built by inserting a list is ordered, and its in-order sequence is that list sorted. */
  lemma BuiltTreeSorted(xs: seq<int>)
    ensures IsBst(InsertAll(xs))
    ensures Sorted(Flatten(InsertAll(xs)))
    ensures multiset(Flatten(InsertAll(xs))) == multiset(xs)
  {
    InsertAllOrdered(xs);
    InsertAllElements(xs);
    FlattenSortedPermutation(InsertAll(xs));
  }

  /** On an ordered tree the walk finds the target iff the target is a key of the tree. */
  lemma {:induction false} WalkFindsMembers(t: Tree<int>, target: int)
    requires IsBst(t)
    ensures Walk(t, target) <==> target in Elements(t)
  {
    match t
    case Leaf =>
    case Node(l, k, r) =>
      if k < target {
        WalkFindsMembers(r, target);
        assert target !in Elements(l);
      } else if target < k {
        WalkFindsMembers(l, target);
        assert target !in Elements(r);
      }
  }

  /** Searching the tree built from a list finds exactly the list's elements. */
  lemma SearchBuiltTree(xs: seq<int>, target: int)
    ensures Walk(InsertAll(xs), target) <==> target in xs
  {
    InsertAllOrdered(xs);
    InsertAllElements(xs);
    WalkFindsMembers(InsertAll(xs), target);
  }

  // ---------------------------------------------------------------------------
  // The tree as linked heap nodes.

  class TreeNode {
    var data: int
    var left: TreeNode?
    var right: TreeNode?
    ghost var Repr: set<object>
    ghost var Model: Tree<int>

    /** The nodes below are disjoint subtrees, and `Model` is the value they spell out. */
    ghost predicate Valid()
      reads this, Repr
      ensures Valid() ==> this in Repr
      decreases Repr
    {
      && this in Repr
      && (left != null ==>
            left in Repr && left.Repr <= Repr && this !in left.Repr && left.Valid())
      && (right != null ==>
            right in Repr && right.Repr <= Repr && this !in right.Repr && right.Valid())
      && (left != null && right != null ==> left.Repr !! right.Repr)
      && Model == Node(ModelOf(left), data, ModelOf(right))
    }

    /** `TreeNode(data)`: a leaf node. */
    constructor (data: int)
      ensures Valid() && fresh(Repr)
      ensures this.data == data && left == null && right == null
      ensures Model == Node(Leaf, data, Leaf)
    {
      this.data := data;
      left, right := null, null;
      Repr := {this};
      Model := Node(Leaf, data, Leaf);
    }
  }

  ghost function ModelOf(n: TreeNode?): Tree<int>
    reads n
  {
    if n == null then Leaf else n.Model
  }

  ghost function ReprOf(n: TreeNode?): set<object>
    reads n
  {
    if n == null then {} else n.Repr
  }

  /**
   * `insert_node`: an empty tree becomes a fresh node; otherwise the value
   * goes down the left subtree if smaller than the node's key and down the
   * right one if not, the subtree's new root is linked back in place, and the
   * same root is returned.
   */
  method InsertNode(root: TreeNode?, data: int) returns (r: TreeNode)
    requires root != null ==> root.Valid()
    modifies ReprOf(root)
    decreases ReprOf(root)
    ensures r.Valid()
    ensures root != null ==> r == root
    ensures fresh(r.Repr - old(ReprOf(root)))
    ensures r.Model == Insert(old(ModelOf(root)), data)
  {
    if root == null {
      r := new TreeNode(data);
      return;
    }
    if data < root.data {
      var l := InsertNode(root.left, data);
      root.left := l;
      root.Repr := root.Repr + l.Repr;
    } else {
      var rt := InsertNode(root.right, data);
      root.right := rt;
      root.Repr := root.Repr + rt.Repr;
    }
    root.Model := Node(ModelOf(root.left), root.data, ModelOf(root.right));
    r := root;
  }

  /** `in_order_traversal`: the keys in order, a permutation of the tree's keys, sorted on an ordered tree. */
  function InOrderTraversal(root: TreeNode?): (s: seq<int>)
    requires root != null ==> root.Valid()
    reads if root != null then root.Repr else {}
    decreases if root != null then root.Repr else {}
    ensures s == Flatten(ModelOf(root))
    ensures multiset(s) == Elements(ModelOf(root))
    ensures IsBst(ModelOf(root)) ==> Sorted(s)
  {
    FlattenSortedPermutation(ModelOf(root));
    if root == null then []
    else InOrderTraversal(root.left) + [root.data] + InOrderTraversal(root.right)
  }

  /** `create_binary_search_tree`: the labels inserted in iteration order into an empty tree. */
  method CreateBinarySearchTree(labels: seq<int>) returns (root: TreeNode?)
    ensures root != null ==> root.Valid() && fresh(root.Repr)
    ensures (root == null) == (labels == [])
    ensures ModelOf(root) == InsertAll(labels)
    ensures IsBst(ModelOf(root))
    ensures Sorted(Flatten(ModelOf(root))) && multiset(Flatten(ModelOf(root))) == multiset(labels)
  {
    root := null;
    var i := 0;
    while i < |labels|
      invariant 0 <= i <= |labels|
      invariant root != null ==> root.Valid() && fresh(root.Repr)
      invariant (root == null) == (i == 0)
      invariant ModelOf(root) == InsertAll(labels[..i])
    {
      assert labels[..i + 1][..i] == labels[..i];
      root := InsertNode(root, labels[i]);
      i := i + 1;
    }
    assert labels[..i] == labels;
    BuiltTreeSorted(labels);
  }

  /**
   * `search_node`: a cursor moves from the root, right past a smaller key and
   * left past a larger one, until it meets the target or falls off the tree.
   * On a tree ordered by the same comparison the answer is exact membership.
   */
  method SearchNode(root: TreeNode?, target: int) returns (found: bool)
    requires root != null ==> root.Valid()
    ensures found == Walk(ModelOf(root), target)
    ensures IsBst(ModelOf(root)) ==> (found <==> target in Elements(ModelOf(root)))
  {
    if IsBst(ModelOf(root)) {
      WalkFindsMembers(ModelOf(root), target);
    }
    var cursor := root;
    while cursor != null
      invariant cursor != null ==> cursor.Valid()
      invariant Walk(ModelOf(cursor), target) == Walk(ModelOf(root), target)
      decreases ReprOf(cursor)
    {
      if cursor.data == target {
        return true;
      } else if cursor.data < target {
        cursor := cursor.right;
      } else {
        cursor := cursor.left;
      }
    }
    return false;
  }

  // ---------------------------------------------------------------------------
  // As written: the tree holds the graph's string labels, `insert_node`
  // compares them as strings, while `search_node` compares `int(...)` values.

  /**
   * Python's `<` on strings: a proper prefix comes first, otherwise the first
   * differing character decides.
   */
  predicate LabelLess(a: string, b: string): (r: bool)
    ensures r <==> a < b || exists i :: 0 <= i < |a| && i < |b| && a[..i] == b[..i] && a[i] < b[i]
  {
    if a == [] then b != []
    else if b == [] then false
    else if a[0] != b[0] then
      assert a[..0] == b[..0];
      a[0] < b[0]
    else
      var r := LabelLess(a[1..], b[1..]);
      assert r ==> a < b || exists i :: 0 <= i < |a| && i < |b| && a[..i] == b[..i] && a[i] < b[i] by {
        if r && !(a[1..] < b[1..]) {
          var j :| 0 <= j < |a[1..]| && j < |b[1..]| && a[1..][..j] == b[1..][..j] && a[1..][j] < b[1..][j];
          assert a[..j + 1] == [a[0]] + a[1..][..j];
          assert b[..j + 1] == [b[0]] + b[1..][..j];
        }
      }
      assert (exists i :: 0 <= i < |a| && i < |b| && a[..i] == b[..i] && a[i] < b[i]) ==> r by {
        if exists i :: 0 <= i < |a| && i < |b| && a[..i] == b[..i] && a[i] < b[i] {
          var i :| 0 <= i < |a| && i < |b| && a[..i] == b[..i] && a[i] < b[i];
          assert i > 0;
          assert a[1..][..i - 1] == a[..i][1..];
          assert b[1..][..i - 1] == b[..i][1..];
        }
      }
      r
  }

  /** `insert_node` as written, on string labels: it adds exactly the one label. */
  function InsertLabel(t: Tree<string>, name: string): (r: Tree<string>)
    ensures Elements(r) == Elements(t) + multiset{name}
  {
    match t
    case Leaf => Node(Leaf, name, Leaf)
    case Node(l, k, r) =>
      if LabelLess(name, k) then Node(InsertLabel(l, name), k, r) else Node(l, k, InsertLabel(r, name))
  }

  /** `create_binary_search_tree` as written: the labels inserted one after another. */
  function InsertAllLabels(names: seq<string>): Tree<string> {
    if names == [] then Leaf else InsertLabel(InsertAllLabels(names[..|names| - 1]), names[|names| - 1])
  }

  predicate IsDigits(s: string) {
    s != [] && forall i :: 0 <= i < |s| ==> '0' <= s[i] <= '9'
  }

  function Pow10(n: nat): nat {
    if n == 0 then 1 else 10 * Pow10(n - 1)
  }

  lemma MulMono(a: nat, b: nat, p: nat)
    requires a <= b
    ensures a * p <= b * p
  {
    var d: nat := b - a;
    assert b * p == a * p + d * p;
  }

  /** A smaller leading digit makes the smaller number, whatever the digits after it. */
  lemma LeadingDigitDecides(x: nat, y: nat, rx: nat, ry: nat, p: nat)
    requires x < y && rx < p
    ensures x * p + rx < y * p + ry
  {
    assert x * p + p == (x + 1) * p;
    MulMono(x + 1, y, p);
  }

  /** `int(s)` for a string of decimal digits. */
  function DecimalValue(s: string): (v: nat)
    requires IsDigits(s)
    ensures v < Pow10(|s|)
  {
    var d := (s[0] as int) - ('0' as int);
    if |s| == 1 then d
    else
      var rest := DecimalValue(s[1..]);
      var p := Pow10(|s| - 1);
      assert Pow10(|s|) == 10 * p;
      LeadingDigitDecides(d, 10, rest, 0, p);
      d * p + rest
  }

  predicate DigitLabels(t: Tree<string>) {
    match t
    case Leaf => true
    case Node(l, k, r) => IsDigits(k) && DigitLabels(l) && DigitLabels(r)
  }

  /** Every label has `width` characters. */
  predicate LabelWidth(t: Tree<string>, width: nat) {
    match t
    case Leaf => true
    case Node(l, k, r) => |k| == width && LabelWidth(l, width) && LabelWidth(r, width)
  }

  /** The tree as `search_node` reads it: every label through `int()`. */
  function AsInts(t: Tree<string>): Tree<int>
    requires DigitLabels(t)
  {
    match t
    case Leaf => Leaf
    case Node(l, k, r) => Node(AsInts(l), DecimalValue(k), AsInts(r))
  }

  /**
   * Labels "9" then "10": string order files "10" to the left of "9", so the
   * search for 10, finding 9 < 10 at the root, turns right and reports it
   * missing. With integer keys the same insertions are found.
   */
  lemma LabelOrderMismatch()
    ensures var t := InsertAllLabels(["9", "10"]);
      && DigitLabels(t)
      && 10 in Elements(AsInts(t))
      && !Walk(AsInts(t), 10)
    ensures Walk(InsertAll([9, 10]), 10)
  {
    assert LabelLess("10", "9");
    assert ["9", "10"][..1] == ["9"];
    assert ["9"][..0] == [];
    var t := InsertAllLabels(["9", "10"]);
    assert t == Node(Node(Leaf, "10", Leaf), "9", Leaf);
    assert DecimalValue("10") == 10 && DecimalValue("9") == 9;
    assert [9, 10][..1] == [9];
  }

  /** For decimal labels of one width the string order and the integer order agree. */
  lemma {:induction false} SameWidthOrdersAgree(a: string, b: string)
    requires IsDigits(a) && IsDigits(b) && |a| == |b|
    ensures LabelLess(a, b) <==> DecimalValue(a) < DecimalValue(b)
    decreases |a|
  {
    var n := |a| - 1;
    var da, db := (a[0] as int) - ('0' as int), (b[0] as int) - ('0' as int);
    if n > 0 {
      assert IsDigits(a[1..]) && IsDigits(b[1..]);
      var ra, rb := DecimalValue(a[1..]), DecimalValue(b[1..]);
      assert DecimalValue(a) == da * Pow10(n) + ra;
      assert DecimalValue(b) == db * Pow10(n) + rb;
      if da == db {
        SameWidthOrdersAgree(a[1..], b[1..]);
      } else if da < db {
        LeadingDigitDecides(da, db, ra, rb, Pow10(n));
      } else {
        LeadingDigitDecides(db, da, rb, ra, Pow10(n));
      }
    }
  }

  /** With labels of one width, inserting as written builds the integer search tree. */
  lemma {:induction false} InsertLabelAgrees(t: Tree<string>, name: string, width: nat)
    requires DigitLabels(t) && LabelWidth(t, width) && IsDigits(name) && |name| == width
    ensures DigitLabels(InsertLabel(t, name)) && LabelWidth(InsertLabel(t, name), width)
    ensures AsInts(InsertLabel(t, name)) == Insert(AsInts(t), DecimalValue(name))
  {
    match t
    case Leaf =>
    case Node(l, k, r) =>
      SameWidthOrdersAgree(name, k);
      if LabelLess(name, k) {
        InsertLabelAgrees(l, name, width);
      } else {
        InsertLabelAgrees(r, name, width);
      }
  }

  /** Decimal labels, all of `width` characters. */
  predicate SameWidthDigits(names: seq<string>, width: nat) {
    forall i :: 0 <= i < |names| ==> IsDigits(names[i]) && |names[i]| == width
  }

  /** The labels through `int()`, in order. */
  function Values(names: seq<string>): (vs: seq<int>)
    requires forall i :: 0 <= i < |names| ==> IsDigits(names[i])
    ensures |vs| == |names|
    ensures forall i :: 0 <= i < |names| ==> vs[i] == DecimalValue(names[i])
  {
    if names == [] then []
    else Values(names[..|names| - 1]) + [DecimalValue(names[|names| - 1])]
  }

  /** With labels of one width, the tree built as written is the integer search tree of their values. */
  lemma {:induction false} InsertAllLabelsAgree(names: seq<string>, width: nat)
    requires SameWidthDigits(names, width)
    ensures DigitLabels(InsertAllLabels(names)) && LabelWidth(InsertAllLabels(names), width)
    ensures AsInts(InsertAllLabels(names)) == InsertAll(Values(names))
    decreases |names|
  {
    if names != [] {
      var init := names[..|names| - 1];
      assert SameWidthDigits(init, width) by {
        assert forall i :: 0 <= i < |init| ==> init[i] == names[i];
      }
      InsertAllLabelsAgree(init, width);
      InsertLabelAgrees(InsertAllLabels(init), names[|names| - 1], width);
      assert Values(names)[..|names| - 1] == Values(init);
    }
  }

  /**
   * With labels of one width, `search_node` over the tree built as written
   * finds exactly the labels' values.
   */
  lemma SearchSameWidthLabels(names: seq<string>, width: nat, target: int)
    requires SameWidthDigits(names, width)
    ensures DigitLabels(InsertAllLabels(names))
    ensures Walk(AsInts(InsertAllLabels(names)), target) <==> target in Values(names)
  {
    InsertAllLabelsAgree(names, width);
    SearchBuiltTree(Values(names), target);
  }
}
