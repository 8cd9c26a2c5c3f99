/** AVL trees as values: the rebalancing functions, and what they preserve. */
module AvlTrees {
  import opened Powers

  datatype Tree<T> = Leaf | Node(key: int, value: T, height: int, left: Tree<T>, right: Tree<T>)

  // ---------- the algorithm ----------

  function Height<T>(t: Tree<T>): int {
    if t.Node? then t.height else 0
  }

  function BalanceFactor<T>(t: Tree<T>): int {
    if t.Node? then Height(t.left) - Height(t.right) else 0
  }

  function Max(a: int, b: int): int {
    if a > b then a else b
  }

  function WithHeight<T>(t: Tree<T>): Tree<T>
    requires t.Node?
  {
    t.(height := 1 + Max(Height(t.left), Height(t.right)))
  }

  function RotateRight<T>(y: Tree<T>): Tree<T>
    requires y.Node? && y.left.Node?
  {
    var x := y.left;
    WithHeight(x.(right := WithHeight(y.(left := x.right))))
  }

  function RotateLeft<T>(x: Tree<T>): Tree<T>
    requires x.Node? && x.right.Node?
  {
    var y := x.right;
    WithHeight(y.(left := WithHeight(x.(right := y.left))))
  }

  /** A rotation is possible where the heights say one is needed. */
  predicate Rotatable<T>(t: Tree<T>) {
    t.Node? ==>
      && (BalanceFactor(t) > 1 ==> t.left.Node? && (BalanceFactor(t.left) < 0 ==> t.left.right.Node?))
      && (BalanceFactor(t) < -1 ==> t.right.Node? && (BalanceFactor(t.right) > 0 ==> t.right.left.Node?))
  }

  function Balance<T>(t: Tree<T>): Tree<T>
    requires t.Node? && Rotatable(t)
  {
    var n := WithHeight(t);
    if BalanceFactor(n) > 1 then
      RotateRight(if BalanceFactor(n.left) < 0 then n.(left := RotateLeft(n.left)) else n)
    else if BalanceFactor(n) < -1 then
      RotateLeft(if BalanceFactor(n.right) > 0 then n.(right := RotateRight(n.right)) else n)
    else n
  }

  // ---------- the invariant ----------

  /** Stored heights are exact. */
  ghost predicate Exact<T>(t: Tree<T>) {
    t.Node? ==> Exact(t.left) && Exact(t.right) && t.height == 1 + Max(Height(t.left), Height(t.right))
  }

  ghost predicate Balanced<T>(t: Tree<T>) {
    t.Node? ==> Balanced(t.left) && Balanced(t.right) && -1 <= BalanceFactor(t) <= 1
  }

  ghost function Keys<T>(t: Tree<T>): set<int> {
    if t.Leaf? then {} else Keys(t.left) + {t.key} + Keys(t.right)
  }

  ghost predicate Below(ks: set<int>, k: int) {
    forall x :: x in ks ==> x < k
  }

  ghost predicate Above(ks: set<int>, k: int) {
    forall x :: x in ks ==> k < x
  }

  ghost predicate Ordered<T>(t: Tree<T>) {
    t.Node? ==> Ordered(t.left) && Ordered(t.right) && Below(Keys(t.left), t.key) && Above(Keys(t.right), t.key)
  }

  ghost predicate Avl<T>(t: Tree<T>) {
    Exact(t) && Balanced(t) && Ordered(t)
  }

  /** The map a tree stands for. */
  ghost function ToMap<T>(t: Tree<T>): (m: map<int, T>)
    ensures m.Keys == Keys(t)
  {
    if t.Leaf? then map[] else ToMap(t.left)[t.key := t.value] + ToMap(t.right)
  }

  lemma {:induction false} HeightPositive<T>(t: Tree<T>)
    requires Exact(t)
    ensures Height(t) >= 0 && (t.Node? ==> Height(t) >= 1)
  {
    if t.Node? {
      HeightPositive(t.left);
      HeightPositive(t.right);
    }
  }

  // ---------- rotations keep order and contents ----------

  /** A node in key order over ordered subtrees, whatever the heights. */
  ghost predicate Joined<T>(t: Tree<T>) {
    t.Node? && Ordered(t.left) && Ordered(t.right) && Below(Keys(t.left), t.key) && Above(Keys(t.right), t.key)
  }

  ghost predicate SameContents<T>(t: Tree<T>, u: Tree<T>) {
    Keys(t) == Keys(u) && ToMap(t) == ToMap(u)
  }

  lemma RightRotationKeeps<T>(y: Tree<T>)
    requires Joined(y) && y.left.Node?
    ensures Joined(RotateRight(y)) && SameContents(y, RotateRight(y))
  {
    var x, r := y.left, RotateRight(y);
    assert Keys(r) == Keys(x.left) + {x.key} + (Keys(x.right) + {y.key} + Keys(y.right));
    assert y.key in Keys(r.right);
    assert ToMap(r) == ToMap(x.left)[x.key := x.value] + (ToMap(x.right)[y.key := y.value] + ToMap(y.right));
  }

  lemma LeftRotationKeeps<T>(x: Tree<T>)
    requires Joined(x) && x.right.Node?
    ensures Joined(RotateLeft(x)) && SameContents(x, RotateLeft(x))
  {
    var y, l := x.right, RotateLeft(x);
    assert Keys(l) == (Keys(x.left) + {x.key} + Keys(y.left)) + {y.key} + Keys(y.right);
    assert x.key in Keys(l.left);
    assert ToMap(l) == (ToMap(x.left)[x.key := x.value] + ToMap(y.left))[y.key := y.value] + ToMap(y.right);
  }

  lemma BalanceKeeps<T>(t: Tree<T>)
    requires Joined(t) && Rotatable(t)
    ensures Joined(Balance(t)) && SameContents(t, Balance(t))
  {
    var n := WithHeight(t);
    if BalanceFactor(n) > 1 {
      if BalanceFactor(n.left) < 0 {
        LeftRotationKeeps(n.left);
        RightRotationKeeps(n.(left := RotateLeft(n.left)));
      } else {
        RightRotationKeeps(n);
      }
    } else if BalanceFactor(n) < -1 {
      if BalanceFactor(n.right) > 0 {
        RightRotationKeeps(n.right);
        LeftRotationKeeps(n.(right := RotateRight(n.right)));
      } else {
        LeftRotationKeeps(n);
      }
    }
  }

  // ---------- rebalancing restores the heights ----------

  ghost predicate Shaped<T>(t: Tree<T>) {
    Exact(t) && Balanced(t)
  }

  /** A node over well-shaped subtrees whose heights differ by at most two. */
  ghost predicate Tilted<T>(t: Tree<T>) {
    t.Node? && Shaped(t.left) && Shaped(t.right) && -2 <= BalanceFactor(t) <= 2
  }

  lemma TiltedRotatable<T>(t: Tree<T>)
    requires Tilted(t)
    ensures Rotatable(t)
  {
    HeightPositive(t.left);
    HeightPositive(t.right);
    if t.left.Node? {
      HeightPositive(t.left.left);
      HeightPositive(t.left.right);
    }
    if t.right.Node? {
      HeightPositive(t.right.left);
      HeightPositive(t.right.right);
    }
  }

  lemma ShapedNode<T>(t: Tree<T>)
    requires t.Node? && Shaped(t.left) && Shaped(t.right) && -1 <= BalanceFactor(t) <= 1
    ensures Shaped(WithHeight(t))
  {
  }

  lemma SubtreesShaped<T>(t: Tree<T>)
    requires t.Node? && Shaped(t)
    ensures Height(t.left) >= 0 && Height(t.right) >= 0
    ensures Shaped(t.left) && Shaped(t.right) && -1 <= BalanceFactor(t) <= 1
    ensures Height(t) == 1 + Max(Height(t.left), Height(t.right))
  {
    HeightPositive(t.left);
    HeightPositive(t.right);
  }

  lemma LeftHeavy<T>(t: Tree<T>)
    requires Tilted(t) && Rotatable(t) && BalanceFactor(t) == 2
    ensures Shaped(Balance(t)) && Height(t.left) <= Height(Balance(t)) <= Height(t.left) + 1
  {
    var l := t.left;
    SubtreesShaped(l);
    if BalanceFactor(l) < 0 {
      var m := l.right;
      SubtreesShaped(m);
      var n := WithHeight(t);
      var a, b := l.(right := m.left), n.(left := m.right);
      ShapedNode(a);
      ShapedNode(b);
      ShapedNode(Node(m.key, m.value, m.height, WithHeight(a), WithHeight(b)));
    } else {
      var n := WithHeight(t);
      var b := n.(left := l.right);
      ShapedNode(b);
      ShapedNode(l.(right := WithHeight(b)));
    }
  }

  lemma RightHeavy<T>(t: Tree<T>)
    requires Tilted(t) && Rotatable(t) && BalanceFactor(t) == -2
    ensures Shaped(Balance(t)) && Height(t.right) <= Height(Balance(t)) <= Height(t.right) + 1
  {
    var r := t.right;
    SubtreesShaped(r);
    if BalanceFactor(r) > 0 {
      var m := r.left;
      SubtreesShaped(m);
      var n := WithHeight(t);
      var a, b := n.(right := m.left), r.(left := m.right);
      ShapedNode(a);
      ShapedNode(b);
      ShapedNode(Node(m.key, m.value, m.height, WithHeight(a), WithHeight(b)));
    } else {
      var n := WithHeight(t);
      var a := n.(right := r.left);
      ShapedNode(a);
      ShapedNode(r.(left := WithHeight(a)));
    }
  }

  ghost function TallestPlusOne<T>(t: Tree<T>): int
    requires t.Node?
  {
    1 + Max(Height(t.left), Height(t.right))
  }

  /** Rebalancing restores the invariant, keeps the contents, and loses at most one level, none
      when no rotation was needed. */
  lemma BalanceRestores<T>(t: Tree<T>)
    requires Tilted(t) && Joined(t)
    ensures Rotatable(t) && Avl(Balance(t)) && SameContents(t, Balance(t))
    ensures TallestPlusOne(t) - 1 <= Height(Balance(t)) <= TallestPlusOne(t)
    ensures -1 <= BalanceFactor(t) <= 1 ==> Height(Balance(t)) == TallestPlusOne(t)
  {
    TiltedRotatable(t);
    BalanceKeeps(t);
    if BalanceFactor(t) > 1 {
      LeftHeavy(t);
    } else if BalanceFactor(t) < -1 {
      RightHeavy(t);
    }
  }

  /** n is t with one subtree, and perhaps its own entry, replaced. */
  ghost predicate Rebuilds<T>(t: Tree<T>, n: Tree<T>) {
    && t.Node? && Avl(t) && n.Node? && Avl(n.left) && Avl(n.right)
    && Below(Keys(n.left), n.key) && Above(Keys(n.right), n.key)
    && (|| (n.left == t.left && -1 <= Height(n.right) - Height(t.right) <= 1)
        || (n.right == t.right && -1 <= Height(n.left) - Height(t.left) <= 1))
  }

  /** Rebalancing after a subtree has grown or shrunk by at most one level. */
  function Rebalance<T>(ghost t: Tree<T>, n: Tree<T>): (b: Tree<T>)
    requires Rebuilds(t, n)
    ensures Rotatable(n) && b == Balance(n) && Avl(b) && b.Node? && SameContents(b, n)
    ensures Height(n.left) >= Height(t.left) && Height(n.right) >= Height(t.right) ==>
      Height(t) <= Height(b) <= Height(t) + 1
    ensures Height(n.left) <= Height(t.left) && Height(n.right) <= Height(t.right) ==>
      Height(t) - 1 <= Height(b) <= Height(t)
  {
    BalanceRestores(n);
    Balance(n)
  }

  // ---------- insertion ----------

  function Insert<T>(t: Tree<T>, key: int, value: T): (t': Tree<T>)
    requires Avl(t)
    ensures Avl(t') && t'.Node? && Height(t) <= Height(t') <= Height(t) + 1
    ensures Keys(t') == Keys(t) + {key}
  {
    hide Balance, Rotatable, Avl;
    if t.Leaf? then NewLeafIsAvl(key, value); Node(key, value, 1, Leaf, Leaf)
    else
      Subtrees(t);
      if key < t.key then Rebalance(t, t.(left := Insert(t.left, key, value)))
      else if key > t.key then Rebalance(t, t.(right := Insert(t.right, key, value)))
      else NewValueIsAvl(t, value); t.(value := value)
  }

  /** Insertion, one level unfolded. */
  lemma InsertLeft<T>(t: Tree<T>, key: int, value: T)
    requires Avl(t) && t.Node? && key < t.key
    ensures Avl(t.left)
    ensures var n := t.(left := Insert(t.left, key, value)); Rotatable(n) && Insert(t, key, value) == Balance(n)
  {
    hide Balance, Rotatable, Avl;
    Subtrees(t);
    assert Insert(t, key, value) == Rebalance(t, t.(left := Insert(t.left, key, value)));
  }

  lemma InsertRight<T>(t: Tree<T>, key: int, value: T)
    requires Avl(t) && t.Node? && key > t.key
    ensures Avl(t.right)
    ensures var n := t.(right := Insert(t.right, key, value)); Rotatable(n) && Insert(t, key, value) == Balance(n)
  {
    hide Balance, Rotatable, Avl;
    Subtrees(t);
    assert Insert(t, key, value) == Rebalance(t, t.(right := Insert(t.right, key, value)));
  }

  lemma InsertHere<T>(t: Tree<T>, key: int, value: T)
    requires Avl(t)
    ensures t.Leaf? ==> Insert(t, key, value) == Node(key, value, 1, Leaf, Leaf)
    ensures t.Node? && key == t.key ==> Insert(t, key, value) == t.(value := value)
  {
    hide Balance, Rotatable, Avl, Rebuilds;
  }

  /** Where a key can be. */
  lemma KeysStep<T>(t: Tree<T>, key: int)
    requires Ordered(t)
    ensures key in Keys(t) <==>
      if t.Leaf? then false
      else if key < t.key then key in Keys(t.left)
      else if key > t.key then key in Keys(t.right)
      else true
  {
  }

  lemma NewLeafIsAvl<T>(key: int, value: T)
    ensures var n := Node(key, value, 1, Leaf, Leaf); Avl(n) && Keys(n) == {key}
  {
  }

  lemma NewValueIsAvl<T>(t: Tree<T>, value: T)
    requires Avl(t) && t.Node?
    ensures Avl(t.(value := value)) && Keys(t.(value := value)) == Keys(t)
  {
  }

  /** Insertion is map update. */
  lemma {:induction false} InsertIsUpdate<T>(t: Tree<T>, key: int, value: T)
    requires Avl(t)
    ensures ToMap(Insert(t, key, value)) == ToMap(t)[key := value]
  {
    hide Avl, Rebuilds, Balance, Rotatable, Height;
    if t.Node? {
      Subtrees(t);
      UpdateJoined(ToMap(t.left), t.key, t.value, ToMap(t.right), key, value);
      if key < t.key {
        InsertIsUpdate(t.left, key, value);
      } else if key > t.key {
        InsertIsUpdate(t.right, key, value);
      }
    }
  }

  lemma UpdateJoined<T>(l: map<int, T>, k: int, v: T, r: map<int, T>, key: int, value: T)
    requires k !in r
    ensures key != k && key !in r ==> l[key := value][k := v] + r == (l[k := v] + r)[key := value]
    ensures l[k := v] + r[key := value] == (l[k := v] + r)[key := value]
    ensures l[k := value] + r == (l[k := v] + r)[k := value]
  {
  }

  lemma Subtrees<T>(t: Tree<T>)
    requires Avl(t) && t.Node?
    ensures Avl(t.left) && Avl(t.right) && Below(Keys(t.left), t.key) && Above(Keys(t.right), t.key)
    ensures Ordered(t) && Ordered(t.left) && Ordered(t.right)
  {
  }

  // ---------- removal ----------

  /** The leftmost node. */
  function MinNode<T>(t: Tree<T>): (m: Tree<T>)
    requires t.Node?
    ensures m.Node?
  {
    if t.left.Node? then MinNode(t.left) else t
  }

  lemma {:induction false} MinNodeIsLeast<T>(t: Tree<T>)
    requires t.Node? && Ordered(t)
    ensures var m := MinNode(t);
      m.key in ToMap(t) && ToMap(t)[m.key] == m.value && forall k :: k in Keys(t) ==> m.key <= k
  {
    if t.left.Node? {
      MinNodeIsLeast(t.left);
      assert MinNode(t).key !in ToMap(t.right);
    } else {
      assert t.key !in ToMap(t.right);
    }
  }

  /** Removal; a node with two subtrees takes its successor's entry, and the successor is then
      removed from the right subtree. */
  function Remove<T>(t: Tree<T>, key: int): (t': Tree<T>)
    requires Avl(t)
    ensures Avl(t') && Height(t) - 1 <= Height(t') <= Height(t)
    ensures Keys(t') == Keys(t) - {key}
  {
    hide Balance, Rotatable, Avl, MinNode;
    if t.Leaf? then Leaf
    else
      Subtrees(t);
      if key < t.key then Rebalance(t, t.(left := Remove(t.left, key)))
      else if key > t.key then Rebalance(t, t.(right := Remove(t.right, key)))
      else if t.left.Leaf? || t.right.Leaf? then SpliceOut(t)
      else ReplaceBySuccessor(t, Remove(t.right, MinNode(t.right).key))
  }

  lemma SpliceOutMap<T>(t: Tree<T>)
    requires t.Node? && Ordered(t)
    ensures t.left.Leaf? ==> ToMap(t.right) == ToMap(t) - {t.key}
    ensures t.right.Leaf? ==> ToMap(t.left) == ToMap(t) - {t.key}
  {
    assert t.key !in ToMap(t.left) && t.key !in ToMap(t.right);
  }

  /** Removal, one level unfolded. */
  lemma RemoveLeft<T>(t: Tree<T>, key: int)
    requires Avl(t) && t.Node? && key < t.key
    ensures Avl(t.left)
    ensures var n := t.(left := Remove(t.left, key)); Rotatable(n) && Remove(t, key) == Balance(n)
  {
    hide Balance, Rotatable, Avl;
    Subtrees(t);
    assert Remove(t, key) == Rebalance(t, t.(left := Remove(t.left, key)));
  }

  lemma RemoveRight<T>(t: Tree<T>, key: int)
    requires Avl(t) && t.Node? && key > t.key
    ensures Avl(t.right)
    ensures var n := t.(right := Remove(t.right, key)); Rotatable(n) && Remove(t, key) == Balance(n)
  {
    hide Balance, Rotatable, Avl;
    Subtrees(t);
    assert Remove(t, key) == Rebalance(t, t.(right := Remove(t.right, key)));
  }

  lemma RemoveHere<T>(t: Tree<T>, key: int)
    requires Avl(t)
    ensures t.Leaf? ==> Remove(t, key) == Leaf
    ensures t.Node? && key == t.key && (t.left.Leaf? || t.right.Leaf?) ==>
      Remove(t, key) == if t.left.Node? then t.left else t.right
  {
    hide Balance, Rotatable, Avl, Rebuilds;
  }

  lemma RemoveWithSuccessor<T>(t: Tree<T>)
    requires Avl(t) && t.Node? && t.left.Node? && t.right.Node?
    ensures Avl(t.right) && MinNode(t.right).key in Keys(t.right)
    ensures var s := MinNode(t.right);
      var n := t.(key := s.key, value := s.value, right := Remove(t.right, s.key));
      Rotatable(n) && Remove(t, t.key) == Balance(n)
  {
    hide Balance, Rotatable, Avl, MinNode, ToMap;
    Subtrees(t);
    MinNodeIsLeast(t.right);
    var s := MinNode(t.right);
    SuccessorFits(t, Remove(t.right, s.key));
    assert Remove(t, t.key) == Rebalance(t, t.(key := s.key, value := s.value, right := Remove(t.right, s.key)));
  }

  /** A node with at most one subtree gives way to it. */
  function SpliceOut<T>(t: Tree<T>): (t': Tree<T>)
    requires Avl(t) && t.Node? && (t.left.Leaf? || t.right.Leaf?)
    ensures Avl(t') && Height(t') == Height(t) - 1
    ensures Keys(t') == Keys(t) - {t.key} && ToMap(t') == ToMap(t) - {t.key}
  {
    HeightPositive(t.left);
    HeightPositive(t.right);
    SpliceOutMap(t);
    if t.left.Node? then t.left else t.right
  }

  /** A node takes the entry of its successor, which right no longer holds. */
  function ReplaceBySuccessor<T>(t: Tree<T>, right: Tree<T>): (t': Tree<T>)
    requires Avl(t) && t.Node? && t.left.Node? && t.right.Node?
    requires Avl(right) && Height(t.right) - 1 <= Height(right) <= Height(t.right)
    requires Keys(right) == Keys(t.right) - {MinNode(t.right).key}
    ensures Avl(t') && Height(t) - 1 <= Height(t') <= Height(t)
    ensures Keys(t') == Keys(t) - {t.key}
    ensures ToMap(right) == ToMap(t.right) - {MinNode(t.right).key} ==> ToMap(t') == ToMap(t) - {t.key}
  {
    hide Balance, Rotatable, Avl, MinNode, ToMap;
    Subtrees(t);
    SuccessorFits(t, right);
    var s := MinNode(t.right);
    Rebalance(t, t.(key := s.key, value := s.value, right := right))
  }

  lemma SuccessorFits<T>(t: Tree<T>, right: Tree<T>)
    requires t.Node? && t.right.Node? && Ordered(t) && Ordered(t.right)
    requires Keys(right) == Keys(t.right) - {MinNode(t.right).key}
    ensures var s := MinNode(t.right);
      var n := t.(key := s.key, value := s.value, right := right);
      && Below(Keys(t.left), s.key) && Above(Keys(right), s.key)
      && Keys(n) == Keys(t) - {t.key}
      && (ToMap(right) == ToMap(t.right) - {s.key} ==> ToMap(n) == ToMap(t) - {t.key})
  {
    hide MinNode;
    MinNodeIsLeast(t.right);
    var s := MinNode(t.right);
    assert s.key in Keys(t.right) && t.key !in Keys(t.left) && t.key !in Keys(t.right);
  }

  lemma DeleteJoined<T>(l: map<int, T>, k: int, v: T, r: map<int, T>, key: int)
    ensures key != k && key !in r ==> (l - {key})[k := v] + r == (l[k := v] + r) - {key}
    ensures key != k && key !in l ==> l[k := v] + (r - {key}) == (l[k := v] + r) - {key}
  {
  }

  /** Removal is map deletion. */
  lemma {:induction false} RemoveIsDelete<T>(t: Tree<T>, key: int)
    requires Avl(t)
    ensures ToMap(Remove(t, key)) == ToMap(t) - {key}
  {
    hide Avl, Rebuilds, Balance, Rotatable, Height;
    if t.Node? {
      Subtrees(t);
      DeleteJoined(ToMap(t.left), t.key, t.value, ToMap(t.right), key);
      if key < t.key {
        RemoveIsDelete(t.left, key);
      } else if key > t.key {
        RemoveIsDelete(t.right, key);
      } else if t.left.Node? && t.right.Node? {
        RemoveIsDelete(t.right, MinNode(t.right).key);
      }
    }
  }

  // ---------- lookup, traversal and range queries ----------

  /** The node of a key, or a leaf. */
  function Find<T>(t: Tree<T>, key: int): (n: Tree<T>)
    requires Ordered(t)
    ensures n.Node? <==> key in ToMap(t)
    ensures n.Node? ==> n.key == key && n.value == ToMap(t)[key]
  {
    if t.Leaf? || key == t.key then t
    else if key < t.key then Find(t.left, key)
    else Find(t.right, key)
  }

  /** The entries in traversal order. */
  function InOrder<T>(t: Tree<T>): seq<(int, T)> {
    if t.Leaf? then [] else InOrder(t.left) + [(t.key, t.value)] + InOrder(t.right)
  }

  /** The entries a range query visits, pruned at the ends of the range. */
  function RangeQuery<T>(t: Tree<T>, lo: int, hi: int): seq<(int, T)> {
    if t.Leaf? then []
    else
      (if t.key > lo then RangeQuery(t.left, lo, hi) else [])
      + (if lo <= t.key <= hi then [(t.key, t.value)] else [])
      + (if t.key < hi then RangeQuery(t.right, lo, hi) else [])
  }

  function Within<T>(es: seq<(int, T)>, lo: int, hi: int): seq<(int, T)> {
    if es == [] then []
    else (if lo <= es[0].0 <= hi then [es[0]] else []) + Within(es[1..], lo, hi)
  }

  lemma {:induction false} WithinConcat<T>(s: seq<(int, T)>, t: seq<(int, T)>, lo: int, hi: int)
    ensures Within(s + t, lo, hi) == Within(s, lo, hi) + Within(t, lo, hi)
  {
    if s == [] {
      assert s + t == t;
    } else {
      assert (s + t)[1..] == s[1..] + t;
      WithinConcat(s[1..], t, lo, hi);
    }
  }

  lemma {:induction false} NoneWithin<T>(s: seq<(int, T)>, lo: int, hi: int)
    requires forall i :: 0 <= i < |s| ==> !(lo <= s[i].0 <= hi)
    ensures Within(s, lo, hi) == []
  {
    if s != [] {
      NoneWithin(s[1..], lo, hi);
    }
  }

  ghost predicate Increasing<T>(es: seq<(int, T)>) {
    forall i, j :: 0 <= i < j < |es| ==> es[i].0 < es[j].0
  }

  /** The traversal lists exactly the map's entries, in increasing key order. */
  lemma {:induction false} InOrderLists<T>(t: Tree<T>)
    requires Ordered(t)
    ensures Increasing(InOrder(t))
    ensures forall e :: e in InOrder(t) ==> e.0 in ToMap(t) && ToMap(t)[e.0] == e.1
    ensures forall k :: k in ToMap(t) ==> (k, ToMap(t)[k]) in InOrder(t)
  {
    if t.Node? {
      InOrderLists(t.left);
      InOrderLists(t.right);
      InOrderJoins(InOrder(t.left), t.key, t.value, InOrder(t.right));
      forall e | e in InOrder(t)
        ensures e.0 in ToMap(t) && ToMap(t)[e.0] == e.1
      {
        assert e in InOrder(t.left) || e == (t.key, t.value) || e in InOrder(t.right);
      }
    }
  }

  lemma InOrderJoins<T>(l: seq<(int, T)>, k: int, v: T, r: seq<(int, T)>)
    requires Increasing(l) && Increasing(r)
    requires forall e :: e in l ==> e.0 < k
    requires forall e :: e in r ==> k < e.0
    ensures Increasing(l + [(k, v)] + r)
  {
  }

  /** Pruning loses nothing: a range query visits exactly the traversal's entries in range. */
  lemma {:induction false} RangeQueryIsFilter<T>(t: Tree<T>, lo: int, hi: int)
    requires Ordered(t)
    ensures RangeQuery(t, lo, hi) == Within(InOrder(t), lo, hi)
  {
    if t.Node? {
      var l, e, r := InOrder(t.left), [(t.key, t.value)], InOrder(t.right);
      RangeQueryIsFilter(t.left, lo, hi);
      RangeQueryIsFilter(t.right, lo, hi);
      WithinConcat(l + e, r, lo, hi);
      WithinConcat(l, e, lo, hi);
      assert t.key <= lo ==> Within(l, lo, hi) == [] by {
        if t.key <= lo {
          LeftOfRange(t, lo, hi);
        }
      }
      assert t.key >= hi ==> Within(r, lo, hi) == [] by {
        if t.key >= hi {
          RightOfRange(t, lo, hi);
        }
      }
      assert Within(e, lo, hi) == if lo <= t.key <= hi then e else [];
    }
  }

  lemma LeftOfRange<T>(t: Tree<T>, lo: int, hi: int)
    requires t.Node? && Ordered(t) && t.key <= lo
    ensures Within(InOrder(t.left), lo, hi) == []
  {
    var l := InOrder(t.left);
    InOrderLists(t.left);
    forall i | 0 <= i < |l|
      ensures l[i].0 < lo
    {
      assert l[i] in l;
    }
    NoneWithin(l, lo, hi);
  }

  lemma RightOfRange<T>(t: Tree<T>, lo: int, hi: int)
    requires t.Node? && Ordered(t) && t.key >= hi
    ensures Within(InOrder(t.right), lo, hi) == []
  {
    var r := InOrder(t.right);
    InOrderLists(t.right);
    forall i | 0 <= i < |r|
      ensures r[i].0 > hi
    {
      assert r[i] in r;
    }
    NoneWithin(r, lo, hi);
  }

  // ---------- height ----------

  function Fib(n: nat): nat {
    if n < 2 then n else Fib(n - 1) + Fib(n - 2)
  }

  lemma {:induction false} FibMonotone(a: nat, b: nat)
    requires a <= b
    ensures Fib(a) <= Fib(b)
  {
    if a < b {
      FibMonotone(a, b - 1);
    }
  }

  function Size<T>(t: Tree<T>): nat {
    if t.Leaf? then 0 else Size(t.left) + 1 + Size(t.right)
  }

  lemma {:induction false} SizeCountsKeys<T>(t: Tree<T>)
    requires Ordered(t)
    ensures Size(t) == |Keys(t)|
  {
    if t.Node? {
      SizeCountsKeys(t.left);
      SizeCountsKeys(t.right);
      SizesAdd(Keys(t.left), t.key, Keys(t.right));
    }
  }

  lemma {:induction false} HeightBoundsSize<T>(t: Tree<T>)
    requires Shaped(t)
    ensures Height(t) >= 0 && Size(t) >= Fib(Height(t) + 2) - 1
  {
    HeightPositive(t);
    if t.Node? {
      SubtreesShaped(t);
      HeightBoundsSize(t.left);
      HeightBoundsSize(t.right);
      FibStep(Height(t.left), Height(t.right), Size(t.left), Size(t.right));
    }
  }

  /** An AVL tree of height h holds at least Fib(h + 2) - 1 keys. */
  lemma HeightBound<T>(t: Tree<T>)
    requires Avl(t)
    ensures Height(t) >= 0 && |Keys(t)| >= Fib(Height(t) + 2) - 1
  {
    HeightBoundsSize(t);
    SizeCountsKeys(t);
  }

  lemma FibStep(hl: nat, hr: nat, nl: nat, nr: nat)
    requires -1 <= hl - hr <= 1 && nl >= Fib(hl + 2) - 1 && nr >= Fib(hr + 2) - 1
    ensures nl + 1 + nr >= Fib(Max(hl, hr) + 3) - 1
  {
    var h := Max(hl, hr);
    var low := if hl < hr then hl else hr;
    FibMonotone(h + 1, low + 2);
    assert Fib(h + 3) == Fib(h + 2) + Fib(h + 1);
  }

  lemma SizesAdd(a: set<int>, k: int, b: set<int>)
    requires Below(a, k) && Above(b, k)
    ensures |a + {k} + b| == |a| + 1 + |b|
  {
    forall x | x in a + {k}
      ensures x !in b
    {
      assert x == k || x < k;
    }
    assert k !in a;
  }

  lemma {:induction false} FibDoubles(k: nat)
    ensures Fib(2 * k + 2) >= Pow2(k)
  {
    if k > 0 {
      FibDoubles(k - 1);
      assert Fib(2 * k + 2) == Fib(2 * k + 1) + Fib(2 * k);
      FibMonotone(2 * k, 2 * k + 1);
    }
  }

  /** So the height is logarithmic: at most twice the binary logarithm, plus one. */
  lemma HeightIsLogarithmic<T>(t: Tree<T>, k: nat)
    requires Avl(t) && Height(t) >= 2 * k
    ensures |Keys(t)| + 1 >= Pow2(k)
  {
    HeightBound(t);
    FibDoubles(k);
    FibMonotone(2 * k + 2, Height(t) + 2);
  }
}
