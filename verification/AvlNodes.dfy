/** The AVL tree on the heap: nodes rotated and relinked in place, each operation proved to
    compute the corresponding function on tree values. */
module AvlNodes {
  import opened AvlTrees

  class AVLNode<T> {
    var key: int
    var value: T
    var height: int
    var left: AVLNode?<T>
    var right: AVLNode?<T>
    /** The nodes of this subtree and the tree they form. */
    ghost var Repr: set<AVLNode<T>>
    ghost var tree: Tree<T>

    ghost predicate Valid()
      reads this, Repr
      ensures Valid() ==> this in Repr && tree.Node?
    {
      && this in Repr
      && (left != null ==> left in Repr && left.Repr <= Repr && this !in left.Repr && left.Valid())
      && (right != null ==> right in Repr && right.Repr <= Repr && this !in right.Repr && right.Valid())
      && (left != null && right != null ==> left.Repr !! right.Repr)
      && tree == Node(key, value, height, TreeOf(left), TreeOf(right))
    }

    constructor (k: int, v: T)
      ensures Valid() && Repr == {this} && tree == Node(k, v, 1, Leaf, Leaf)
    {
      key, value, height, left, right := k, v, 1, null, null;
      Repr, tree := {this}, Node(k, v, 1, Leaf, Leaf);
    }

    /** The children are trees of their own, apart from each other and from this node. */
    ghost predicate Parted()
      reads this, left, right, ReprOf(left), ReprOf(right)
    {
      && (left != null ==> left.Valid() && this !in left.Repr)
      && (right != null ==> right.Valid() && this !in right.Repr)
      && (left != null && right != null ==> left.Repr !! right.Repr)
    }

    /** Brings the ghost view of this node up to date with its fields. */
    ghost method Refresh()
      requires Parted()
      modifies this`Repr, this`tree
      ensures Valid() && Repr == {this} + ReprOf(left) + ReprOf(right)
      ensures tree == Node(key, value, height, TreeOf(left), TreeOf(right))
    {
      Repr := {this} + ReprOf(left) + ReprOf(right);
      tree := Node(key, value, height, TreeOf(left), TreeOf(right));
    }

    method UpdateHeight()
      requires Parted()
      modifies this`height, this`tree, this`Repr
      ensures Valid() && Repr == {this} + ReprOf(left) + ReprOf(right)
      ensures tree == WithHeight(Node(key, value, old(height), TreeOf(left), TreeOf(right)))
    {
      var lh := HeightOf(left);
      var rh := HeightOf(right);
      height := 1 + if lh > rh then lh else rh;
      Refresh();
    }
  }

  ghost function TreeOf<T>(n: AVLNode?<T>): Tree<T>
    reads n
  {
    if n == null then Leaf else n.tree
  }

  ghost function ReprOf<T>(n: AVLNode?<T>): set<AVLNode<T>>
    reads n
  {
    if n == null then {} else n.Repr
  }

  ghost predicate ValidOf<T>(n: AVLNode?<T>)
    reads n, ReprOf(n)
  {
    n != null ==> n.Valid()
  }

  method HeightOf<T>(n: AVLNode?<T>) returns (h: int)
    requires ValidOf(n)
    ensures h == Height(TreeOf(n))
  {
    h := if n == null then 0 else n.height;
  }

  method BalanceFactorOf<T>(n: AVLNode<T>) returns (bf: int)
    requires n.Valid()
    ensures bf == BalanceFactor(n.tree)
  {
    var lh := HeightOf(n.left);
    var rh := HeightOf(n.right);
    bf := lh - rh;
  }

  method RotateRightNode<T>(y: AVLNode<T>) returns (x: AVLNode<T>)
    requires y.Parted() && y.left != null
    modifies y, y.left
    ensures x.Valid() && x.Repr <= {y} + old(ReprOf(y.left)) + old(ReprOf(y.right))
    ensures x.tree == RotateRight(old(Node(y.key, y.value, y.height, TreeOf(y.left), TreeOf(y.right))))
  {
    x := y.left;
    var t2 := x.right;
    x.right := y;
    y.left := t2;
    y.UpdateHeight();
    x.UpdateHeight();
  }

  method RotateLeftNode<T>(x: AVLNode<T>) returns (y: AVLNode<T>)
    requires x.Parted() && x.right != null
    modifies x, x.right
    ensures y.Valid() && y.Repr <= {x} + old(ReprOf(x.left)) + old(ReprOf(x.right))
    ensures y.tree == RotateLeft(old(Node(x.key, x.value, x.height, TreeOf(x.left), TreeOf(x.right))))
  {
    y := x.right;
    var t2 := y.left;
    y.left := x;
    x.right := t2;
    x.UpdateHeight();
    y.UpdateHeight();
  }

  /** A left subtree that leans right is rotated to the left first. */
  method StraightenLeft<T>(n: AVLNode<T>)
    requires n.Valid() && n.tree.left.Node? && (BalanceFactor(n.tree.left) < 0 ==> n.tree.left.right.Node?)
    modifies n`left, ReprOf(n.left)
    ensures n.Parted() && n.left != null && ReprOf(n.left) <= old(ReprOf(n.left))
    ensures var t := old(n.tree.left);
      n.left.tree == if BalanceFactor(t) < 0 then RotateLeft(t) else t
  {
    hide RotateLeft, WithHeight, BalanceFactor;
    var lbf := BalanceFactorOf(n.left);
    if lbf < 0 {
      var l := RotateLeftNode(n.left);
      n.left := l;
    }
  }

  /** A right subtree that leans left is rotated to the right first. */
  method StraightenRight<T>(n: AVLNode<T>)
    requires n.Valid() && n.tree.right.Node? && (BalanceFactor(n.tree.right) > 0 ==> n.tree.right.left.Node?)
    modifies n`right, ReprOf(n.right)
    ensures n.Parted() && n.right != null && ReprOf(n.right) <= old(ReprOf(n.right))
    ensures var t := old(n.tree.right);
      n.right.tree == if BalanceFactor(t) > 0 then RotateRight(t) else t
  {
    hide RotateRight, WithHeight, BalanceFactor;
    var rbf := BalanceFactorOf(n.right);
    if rbf > 0 {
      var r := RotateRightNode(n.right);
      n.right := r;
    }
  }

  /** The left-heavy cases: a single or a double rotation to the right. */
  method LowerLeft<T>(n: AVLNode<T>) returns (r: AVLNode<T>)
    requires n.Valid() && n.tree.left.Node? && (BalanceFactor(n.tree.left) < 0 ==> n.tree.left.right.Node?)
    modifies n, ReprOf(n.left)
    ensures r.Valid() && r.Repr <= old(n.Repr)
    ensures var t := old(n.tree);
      r.tree == RotateRight(if BalanceFactor(t.left) < 0 then t.(left := RotateLeft(t.left)) else t)
  {
    hide RotateLeft, RotateRight, WithHeight, BalanceFactor;
    StraightenLeft(n);
    r := RotateRightNode(n);
  }

  /** The right-heavy cases: a single or a double rotation to the left. */
  method LowerRight<T>(n: AVLNode<T>) returns (r: AVLNode<T>)
    requires n.Valid() && n.tree.right.Node? && (BalanceFactor(n.tree.right) > 0 ==> n.tree.right.left.Node?)
    modifies n, ReprOf(n.right)
    ensures r.Valid() && r.Repr <= old(n.Repr)
    ensures var t := old(n.tree);
      r.tree == RotateLeft(if BalanceFactor(t.right) > 0 then t.(right := RotateRight(t.right)) else t)
  {
    hide RotateLeft, RotateRight, WithHeight, BalanceFactor;
    StraightenRight(n);
    r := RotateLeftNode(n);
  }

  /** Recomputes a node's height and rotates if it has become unbalanced. */
  method BalanceNode<T>(n: AVLNode<T>) returns (r: AVLNode<T>)
    requires n.Parted()
    requires Rotatable(Node(n.key, n.value, n.height, TreeOf(n.left), TreeOf(n.right)))
    modifies n, ReprOf(n.left), ReprOf(n.right)
    ensures r.Valid() && r.Repr <= {n} + old(ReprOf(n.left)) + old(ReprOf(n.right))
    ensures r.tree == Balance(old(Node(n.key, n.value, n.height, TreeOf(n.left), TreeOf(n.right))))
  {
    n.UpdateHeight();
    var bf := BalanceFactorOf(n);
    if bf > 1 {
      r := LowerLeft(n);
    } else if bf < -1 {
      r := LowerRight(n);
    } else {
      r := n;
    }
  }

  // ---------- the tree ----------

  class AVLTree<T> {
    var root: AVLNode?<T>
    var size: int

    ghost predicate Valid()
      reads this, root, ReprOf(root)
    {
      ValidOf(root) && Avl(TreeOf(root)) && size == |ToMap(TreeOf(root))|
    }

    /** The map the tree represents. */
    ghost function Entries(): map<int, T>
      reads this, root
    {
      ToMap(TreeOf(root))
    }

    constructor ()
      ensures Valid() && Entries() == map[] && root == null
    {
      root, size := null, 0;
    }

    method InsertNode(n: AVLNode?<T>, key: int, val: T) returns (r: AVLNode<T>)
      requires ValidOf(n) && Avl(TreeOf(n))
      modifies this`size, ReprOf(n)
      ensures r.Valid() && fresh(r.Repr - old(ReprOf(n)))
      ensures r.tree == AvlTrees.Insert(old(TreeOf(n)), key, val)
      ensures size == old(size) + if key in old(Keys(TreeOf(n))) then 0 else 1
      decreases ReprOf(n), 1
    {
      hide Avl, Balance, Rotatable, AvlTrees.Insert, Keys;
      InsertHere(TreeOf(n), key, val);
      OrderedTree(TreeOf(n));
      KeysStep(TreeOf(n), key);
      if n == null {
        size := size + 1;
        r := new AVLNode(key, val);
        return;
      }
      ghost var t := n.tree;
      Subtrees(t);
      if key == n.key {
        n.value := val;
        n.Refresh();
        r := n;
        return;
      }
      if key < n.key {
        InsertLeft(t, key, val);
      } else {
        InsertRight(t, key, val);
      }
      InsertBelow(n, key, val);
      r := BalanceNode(n);
    }

    /** Inserts into the subtree where the key belongs and links what comes back. */
    method InsertBelow(n: AVLNode<T>, key: int, val: T)
      requires n.Valid() && key != n.key && Avl(n.tree.left) && Avl(n.tree.right)
      modifies this`size, n`left, n`right, ReprOf(n.left), ReprOf(n.right)
      ensures n.Parted() && n.key == old(n.key) && n.value == old(n.value) && n.height == old(n.height)
      ensures fresh(ReprOf(n.left) + ReprOf(n.right) - old(n.Repr))
      ensures var t := old(n.tree);
        && TreeOf(n.left) == (if key < n.key then AvlTrees.Insert(t.left, key, val) else t.left)
        && TreeOf(n.right) == (if key < n.key then t.right else AvlTrees.Insert(t.right, key, val))
        && size == old(size) + if key in Keys(if key < n.key then t.left else t.right) then 0 else 1
      decreases n.Repr, 0
    {
      hide Avl, AvlTrees.Insert, Keys;
      if key < n.key {
        var l := InsertNode(n.left, key, val);
        n.left := l;
      } else {
        var l := InsertNode(n.right, key, val);
        n.right := l;
      }
    }
  
    /** Adds or overwrites a key: the map is updated and the tree stays balanced. */
    method Insert(key: int, val: T)
      requires Valid()
      modifies this, ReprOf(root)
      ensures Valid() && fresh(ReprOf(root) - old(ReprOf(root)))
      ensures Entries() == old(Entries())[key := val]
    {
      hide Avl, AvlTrees.Insert, ToMap, Keys;
      InsertIsUpdate(TreeOf(root), key, val);
      var r := InsertNode(root, key, val);
      root := r;
    }

    method MinOf(n: AVLNode<T>) returns (m: AVLNode<T>)
      requires n.Valid()
      ensures m.Valid() && m.key == MinNode(n.tree).key && m.value == MinNode(n.tree).value
    {
      m := n;
      while m.left != null
        invariant m.Valid() && MinNode(m.tree) == MinNode(n.tree)
        decreases m.Repr
      {
        m := m.left;
      }
    }

    method RemoveNode(n: AVLNode?<T>, key: int) returns (r: AVLNode?<T>)
      requires ValidOf(n) && Avl(TreeOf(n))
      modifies this`size, ReprOf(n)
      ensures ValidOf(r) && ReprOf(r) <= old(ReprOf(n))
      ensures TreeOf(r) == AvlTrees.Remove(old(TreeOf(n)), key)
      ensures size == old(size) - if key in old(Keys(TreeOf(n))) then 1 else 0
      decreases ReprOf(n), 1
    {
      hide Avl, Balance, Rotatable, AvlTrees.Remove, Keys, MinNode;
      RemoveHere(TreeOf(n), key);
      OrderedTree(TreeOf(n));
      KeysStep(TreeOf(n), key);
      if n == null {
        return null;
      }
      Subtrees(n.tree);
      if key < n.key {
        RemoveLeft(n.tree, key);
        RemoveBelow(n, key);
      } else if key > n.key {
        RemoveRight(n.tree, key);
        RemoveBelow(n, key);
      } else {
        size := size - 1;
        if n.left == null || n.right == null {
          r := if n.left != null then n.left else n.right;
          return;
        }
        RemoveWithSuccessor(n.tree);
        TakeSuccessor(n);
      }
      r := BalanceNode(n);
    }

    /** Removes from the subtree where the key belongs and links what comes back. */
    method RemoveBelow(n: AVLNode<T>, key: int)
      requires n.Valid() && key != n.key && Avl(n.tree.left) && Avl(n.tree.right)
      modifies this`size, n`left, n`right, ReprOf(n.left), ReprOf(n.right)
      ensures n.Parted() && n.key == old(n.key) && n.value == old(n.value) && n.height == old(n.height)
      ensures ReprOf(n.left) + ReprOf(n.right) <= old(n.Repr)
      ensures var t := old(n.tree);
        && TreeOf(n.left) == (if key < n.key then AvlTrees.Remove(t.left, key) else t.left)
        && TreeOf(n.right) == (if key < n.key then t.right else AvlTrees.Remove(t.right, key))
        && size == old(size) - if key in Keys(if key < n.key then t.left else t.right) then 1 else 0
      decreases n.Repr, 0
    {
      hide Avl, AvlTrees.Remove, Keys;
      if key < n.key {
        var l := RemoveNode(n.left, key);
        n.left := l;
      } else {
        var l := RemoveNode(n.right, key);
        n.right := l;
      }
    }

    /** A node with two subtrees takes its successor's entry, which leaves the right subtree;
        the size goes up once and down once. */
    method TakeSuccessor(n: AVLNode<T>)
      requires n.Valid() && n.left != null && n.right != null && Avl(n.right.tree)
      requires MinNode(n.right.tree).key in Keys(n.right.tree)
      modifies this`size, n`key, n`value, n`right, n.right.Repr
      ensures n.Parted() && size == old(size) && n.left == old(n.left) && n.height == old(n.height)
      ensures ReprOf(n.right) <= old(n.right.Repr) && n.left.tree == old(n.left.tree) && n.left.Repr == old(n.left.Repr)
      ensures var s := MinNode(old(n.right.tree));
        n.key == s.key && n.value == s.value && TreeOf(n.right) == AvlTrees.Remove(old(n.right.tree), s.key)
      decreases n.Repr, 0
    {
      hide Avl, Balance, Rotatable, AvlTrees.Remove, Keys, MinNode;
      var successor := MinOf(n.right);
      var k := successor.key;
      n.key, n.value := k, successor.value;
      size := size + 1;
      var l := RemoveNode(n.right, k);
      n.right := l;
    }

    /** Deletes a key if present: the map loses it and the tree stays balanced. */
    method Remove(key: int)
      requires Valid()
      modifies this, ReprOf(root)
      ensures Valid() && ReprOf(root) <= old(ReprOf(root))
      ensures Entries() == old(Entries()) - {key}
    {
      hide Avl, AvlTrees.Remove, ToMap, Keys;
      RemoveIsDelete(TreeOf(root), key);
      SizeWithout(Entries(), key);
      var r := RemoveNode(root, key);
      root := r;
    }

    /** The value stored under a key; without one the caller's value is left as it was. */
    method Search(key: int, outVal0: T) returns (found: bool, outVal: T)
      requires Valid()
      ensures found <==> key in Entries()
      ensures outVal == if found then Entries()[key] else outVal0
    {
      var n := root;
      while n != null && n.key != key
        invariant ValidOf(n) && Ordered(TreeOf(n)) && Find(TreeOf(n), key) == Find(TreeOf(root), key)
        decreases ReprOf(n)
      {
        n := if key < n.key then n.left else n.right;
      }
      found, outVal := n != null, outVal0;
      if n != null {
        outVal := n.value;
      }
    }
  }

  /** The in-order entries of a subtree, read off the nodes. */
  function InOrderOf<T>(n: AVLNode?<T>): (es: seq<(int, T)>)
    requires ValidOf(n)
    reads n, ReprOf(n)
    ensures es == InOrder(TreeOf(n))
    decreases ReprOf(n)
  {
    if n == null then [] else InOrderOf(n.left) + [(n.key, n.value)] + InOrderOf(n.right)
  }

  /** A range query on the nodes visits exactly the in-order entries whose keys are in range. */
  function RangeOf<T>(n: AVLNode?<T>, lo: int, hi: int): (es: seq<(int, T)>)
    requires ValidOf(n) && Ordered(TreeOf(n))
    reads n, ReprOf(n)
    ensures es == Within(InOrderOf(n), lo, hi)
    decreases ReprOf(n)
  {
    RangeQueryIsFilter(TreeOf(n), lo, hi);
    RangeVisited(n, lo, hi)
  }

  function RangeVisited<T>(n: AVLNode?<T>, lo: int, hi: int): (es: seq<(int, T)>)
    requires ValidOf(n)
    reads n, ReprOf(n)
    ensures es == RangeQuery(TreeOf(n), lo, hi)
    decreases ReprOf(n)
  {
    if n == null then []
    else
      (if n.key > lo then RangeVisited(n.left, lo, hi) else [])
      + (if lo <= n.key <= hi then [(n.key, n.value)] else [])
      + (if n.key < hi then RangeVisited(n.right, lo, hi) else [])
  }

  lemma SizeWithout<T>(m: map<int, T>, key: int)
    ensures |m - {key}| == |m| - if key in m then 1 else 0
  {
    if key in m {
      assert (m - {key})[key := m[key]] == m;
    } else {
      assert m - {key} == m;
    }
  }

  lemma OrderedTree<T>(t: Tree<T>)
    requires Avl(t)
    ensures Ordered(t)
  {
  }
}
