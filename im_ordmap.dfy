/** The persistent ordered map (util/im_ordmap.cc): a binary search tree of
    immutable nodes, shared between versions, that `insert` rebuilds along one
    path.  Keys are integers ordered by `<`, values of any type.

    The file calls `rotateRight` without defining it; the model takes it to be
    the mirror image of `rotateLeft`.  Node heights are copied rather than
    recomputed on the insertion path, so the model proves ordering and lookup
    and nothing about balance. */
module ImOrdMap {
  import opened Wrappers

  datatype Tree<V> = Nil | Node(key: int, value: V, left: Tree<V>, right: Tree<V>, height: int)

  /** The persistent map: a handle on a root. */
  datatype PersistentMap<V> = PersistentMap(root: Tree<V>)

  // ---------------------------------------------------------------------
  // Specification

  function Keys<V>(t: Tree<V>): set<int>
  {
    match t
    case Nil => {}
    case Node(k, _, l, r, _) => Keys(l) + {k} + Keys(r)
  }

  /** Every key of the left subtree is below the node's key, every key of
      the right one above, all the way down. */
  predicate IsBst<V>(t: Tree<V>)
  {
    match t
    case Nil => true
    case Node(k, _, l, r, _) =>
      IsBst(l) && IsBst(r)
      && (forall x :: x in Keys(l) ==> x < k)
      && (forall x :: x in Keys(r) ==> k < x)
  }

  /** Every node has height at least one, as every node the file builds has. */
  predicate PositiveHeights<V>(t: Tree<V>)
  {
    match t
    case Nil => true
    case Node(_, _, l, r, h) => 1 <= h && PositiveHeights(l) && PositiveHeights(r)
  }

  /** The key-value pairs in key order. */
  function Inorder<V>(t: Tree<V>): seq<(int, V)>
  {
    match t
    case Nil => []
    case Node(k, v, l, r, _) => Inorder(l) + [(k, v)] + Inorder(r)
  }

  /** The map a search tree stands for. */
  function Content<V>(t: Tree<V>): map<int, V>
  {
    match t
    case Nil => map[]
    case Node(k, v, l, r, _) => (Content(l) + Content(r))[k := v]
  }

  predicate Valid<V>(m: PersistentMap<V>)
  {
    IsBst(m.root) && PositiveHeights(m.root)
  }

  /** What `find` should give: the value stored under `key`, if any. */
  function Lookup<V>(t: Tree<V>, key: int): Option<V>
  {
    if key in Content(t) then Some(Content(t)[key]) else None
  }

  lemma {:induction false} ContentKeys<V>(t: Tree<V>)
    ensures Content(t).Keys == Keys(t)
  {
    match t
    case Nil =>
    case Node(_, _, l, r, _) =>
      ContentKeys(l);
      ContentKeys(r);
  }

  /** In a search tree, a key below the root is found on the left only, one
      above it on the right only. */
  lemma SearchLeft<V>(t: Tree<V>, key: int)
    requires t.Node? && IsBst(t) && key < t.key
    ensures Lookup(t, key) == Lookup(t.left, key)
  {
    ContentKeys(t.left);
    ContentKeys(t.right);
    assert key !in Keys(t.right);
  }

  lemma SearchRight<V>(t: Tree<V>, key: int)
    requires t.Node? && IsBst(t) && t.key < key
    ensures Lookup(t, key) == Lookup(t.right, key)
  {
    ContentKeys(t.left);
    ContentKeys(t.right);
    assert key !in Keys(t.left);
  }

  // ---------------------------------------------------------------------
  // Construction and lookup

  /** `PersistentMap()`: no root. */
  function Empty<V>(): (r: PersistentMap<V>)
    ensures Valid(r) && Content(r.root) == map[]
  {
    PersistentMap(Nil)
  }

  /** `contains`: walks down from the root. */
  method Contains<V>(m: PersistentMap<V>, key: int) returns (found: bool)
    requires IsBst(m.root)
    ensures found <==> key in Content(m.root)
  {
    var node := m.root;
    while node.Node?
      invariant IsBst(node)
      invariant Lookup(node, key) == Lookup(m.root, key)
      decreases node
    {
      if key < node.key {
        SearchLeft(node, key);
        node := node.left;
      } else if node.key < key {
        SearchRight(node, key);
        node := node.right;
      } else {
        return true;
      }
    }
    return false;
  }

  /** `find`: the value stored under `key`, if any. */
  method Find<V>(m: PersistentMap<V>, key: int) returns (r: Option<V>)
    requires IsBst(m.root)
    ensures r == Lookup(m.root, key)
  {
    var node := m.root;
    while node.Node?
      invariant IsBst(node)
      invariant Lookup(node, key) == Lookup(m.root, key)
      decreases node
    {
      if key < node.key {
        SearchLeft(node, key);
        node := node.left;
      } else if node.key < key {
        SearchRight(node, key);
        node := node.right;
      } else {
        return Some(node.value);
      }
    }
    return None;
  }

  /** `contains` holds exactly when `find` returns a value. */
  lemma ContainsIffFind<V>(m: PersistentMap<V>, key: int)
    ensures key in Content(m.root) <==> Lookup(m.root, key).Some?
  {
  }

  // ---------------------------------------------------------------------
  // Rotations and balancing

  function Height<V>(t: Tree<V>): int
  {
    if t.Node? then t.height else 0
  }

  /** `balanceFactor`: left height minus right height. */
  function BalanceFactor<V>(n: Tree<V>): (r: int)
    requires n.Node?
    ensures r > 0 <==> Height(n.left) > Height(n.right)
    ensures r == 0 <==> Height(n.left) == Height(n.right)
  {
    Height(n.left) - Height(n.right)
  }

  /** Heights two levels down are not negative. */
  lemma ChildHeights<V>(t: Tree<V>)
    requires t.Node? && PositiveHeights(t)
    ensures 0 <= Height(t.left) && 0 <= Height(t.right)
    ensures t.left.Node? ==> 0 <= Height(t.left.left) && 0 <= Height(t.left.right)
    ensures t.right.Node? ==> 0 <= Height(t.right.left) && 0 <= Height(t.right.right)
  {
  }

  function Max(a: int, b: int): int { if a < b then b else a }

  /** `rotateLeft`: the right child becomes the root. */
  function RotateLeft<V>(n: Tree<V>): (r: Tree<V>)
    requires n.Node? && n.right.Node?
    ensures r.Node? && Inorder(r) == Inorder(n)
    ensures PositiveHeights(n) ==> PositiveHeights(r)
  {
    var newRoot := n.right;
    var newRight := newRoot.left;
    assert Inorder(n) == Inorder(n.left) + [(n.key, n.value)]
      + (Inorder(newRight) + [(newRoot.key, newRoot.value)] + Inorder(newRoot.right));
    assert PositiveHeights(n) ==> PositiveHeights(newRoot);
    Node(newRoot.key, newRoot.value,
         Node(n.key, n.value, n.left, newRight, n.height),
         newRoot.right,
         Max(n.height, if newRight.Node? then newRight.height + 1 else 0) + 1)
  }

  /** `rotateRight`, which the file does not define: taken to be the mirror
      image of `rotateLeft`. */
  function RotateRight<V>(n: Tree<V>): (r: Tree<V>)
    requires n.Node? && n.left.Node?
    ensures r.Node? && Inorder(r) == Inorder(n)
    ensures PositiveHeights(n) ==> PositiveHeights(r)
  {
    var newRoot := n.left;
    var newLeft := newRoot.right;
    assert Inorder(n) == (Inorder(newRoot.left) + [(newRoot.key, newRoot.value)] + Inorder(newLeft))
      + [(n.key, n.value)] + Inorder(n.right);
    assert PositiveHeights(n) ==> PositiveHeights(newRoot);
    Node(newRoot.key, newRoot.value,
         newRoot.left,
         Node(n.key, n.value, newLeft, n.right, n.height),
         Max(n.height, if newLeft.Node? then newLeft.height + 1 else 0) + 1)
  }

  /** `balance`: one or two rotations when the heights recorded in the
      children differ by more than one. */
  function Balance<V>(node: Tree<V>): (r: Tree<V>)
    requires node.Node? && PositiveHeights(node)
    ensures r.Node? && Inorder(r) == Inorder(node) && PositiveHeights(r)
  {
    ChildHeights(node);
    var bf := BalanceFactor(node);
    if bf > 1 then
      var n := if BalanceFactor(node.left) < 0
               then Node(node.key, node.value, RotateLeft(node.left), node.right, node.height)
               else node;
      RotateRight(n)
    else if bf < -1 then
      var n := if BalanceFactor(node.right) > 0
               then Node(node.key, node.value, node.left, RotateRight(node.right), node.height)
               else node;
      RotateLeft(n)
    else node
  }

  // ---------------------------------------------------------------------
  // Insertion

  /** The private recursive `insert`. */
  function InsertNode<V>(node: Tree<V>, key: int, value: V): (r: Tree<V>)
    requires PositiveHeights(node)
    ensures r.Node? && PositiveHeights(r)
  {
    match node
    case Nil => Node(key, value, Nil, Nil, 1)
    case Node(k, v, l, rt, h) =>
      if key < k then
        Balance(Node(k, v, InsertNode(l, key, value), rt, h))
      else if k < key then
        Balance(Node(k, v, l, InsertNode(rt, key, value), h))
      else Node(k, value, l, rt, h)
  }

  /** `insert`: a new map with `key` bound to `value`; the receiver is a
      value and is left as it was. */
  function Insert<V>(m: PersistentMap<V>, key: int, value: V): (r: PersistentMap<V>)
    requires Valid(m)
    ensures Valid(r)
    ensures Content(r.root) == Content(m.root)[key := value]
  {
    InsertCorrect(m.root, key, value);
    PersistentMap(InsertNode(m.root, key, value))
  }

  /** A search tree is determined, as a search tree and as a map, by its
      in-order sequence: rebuilding it with the same sequence keeps both. */
  lemma {:induction false} InorderDeterminesContent<V>(s: Tree<V>, t: Tree<V>)
    requires Inorder(s) == Inorder(t) && IsBst(s)
    ensures IsBst(t) && Content(t) == Content(s)
  {
    InorderSorted(s);
    SortedInorderIsBst(t);
    InorderContent(s);
    InorderContent(t);
  }

  /** Keys strictly increasing along a sequence of pairs. */
  predicate Sorted<V>(s: seq<(int, V)>)
  {
    forall i, j :: 0 <= i < j < |s| ==> s[i].0 < s[j].0
  }

  function PairKeys<V>(s: seq<(int, V)>): set<int>
  {
    set i | 0 <= i < |s| :: s[i].0
  }

  /** The map of a sequence of pairs with distinct keys. */
  function PairMap<V>(s: seq<(int, V)>): map<int, V>
  {
    if |s| == 0 then map[] else PairMap(s[..|s| - 1])[s[|s| - 1].0 := s[|s| - 1].1]
  }

  lemma {:induction false} InorderKeys<V>(t: Tree<V>)
    ensures PairKeys(Inorder(t)) == Keys(t)
  {
    match t
    case Nil =>
    case Node(k, v, l, r, _) =>
      InorderKeys(l);
      InorderKeys(r);
      var s := Inorder(t);
      var sl, sr := Inorder(l), Inorder(r);
      assert s == sl + [(k, v)] + sr;
      forall x | x in PairKeys(s)
        ensures x in Keys(t)
      {
        var i :| 0 <= i < |s| && s[i].0 == x;
        if i < |sl| {
          assert s[i] == sl[i];
        } else if i > |sl| {
          assert s[i] == sr[i - |sl| - 1];
        }
      }
      forall x | x in Keys(t)
        ensures x in PairKeys(s)
      {
        if x in Keys(l) {
          var i :| 0 <= i < |sl| && sl[i].0 == x;
          assert s[i] == sl[i];
        } else if x in Keys(r) {
          var i :| 0 <= i < |sr| && sr[i].0 == x;
          assert s[|sl| + 1 + i] == sr[i];
        } else {
          assert s[|sl|] == (k, v);
        }
      }
  }

  lemma {:induction false} InorderSorted<V>(t: Tree<V>)
    requires IsBst(t)
    ensures Sorted(Inorder(t))
  {
    match t
    case Nil =>
    case Node(k, v, l, r, _) =>
      InorderSorted(l);
      InorderSorted(r);
      InorderKeys(l);
      InorderKeys(r);
      var sl, sr := Inorder(l), Inorder(r);
      var s := Inorder(t);
      assert s == sl + [(k, v)] + sr;
      forall i, j | 0 <= i < j < |s|
        ensures s[i].0 < s[j].0
      {
        if j < |sl| {
          assert s[i] == sl[i] && s[j] == sl[j];
        } else if i > |sl| {
          assert s[i] == sr[i - |sl| - 1] && s[j] == sr[j - |sl| - 1];
        } else {
          if i < |sl| {
            assert s[i] == sl[i];
            assert s[i].0 in PairKeys(sl);
          }
          if j > |sl| {
            assert s[j] == sr[j - |sl| - 1];
            assert s[j].0 in PairKeys(sr);
          }
        }
      }
  }

  lemma {:induction false} SortedInorderIsBst<V>(t: Tree<V>)
    requires Sorted(Inorder(t))
    ensures IsBst(t)
  {
    match t
    case Nil =>
    case Node(k, v, l, r, _) =>
      var sl, sr := Inorder(l), Inorder(r);
      var s := Inorder(t);
      assert s == sl + [(k, v)] + sr;
      assert forall i :: 0 <= i < |sl| ==> s[i] == sl[i];
      assert forall i :: 0 <= i < |sr| ==> s[|sl| + 1 + i] == sr[i];
      assert s[|sl|] == (k, v);
      SortedInorderIsBst(l);
      SortedInorderIsBst(r);
      InorderKeys(l);
      InorderKeys(r);
  }

  lemma {:induction false} InorderContent<V>(t: Tree<V>)
    requires IsBst(t)
    ensures Content(t) == PairMap(Inorder(t))
  {
    match t
    case Nil =>
    case Node(k, v, l, r, _) =>
      InorderContent(l);
      InorderContent(r);
      InorderKeys(l);
      InorderKeys(r);
      BstKeysApart(t);
      PairMapOfNode(Inorder(l), k, v, Inorder(r));
      ContentKeys(l);
      ContentKeys(r);
      MapUnionUpdate(Content(l), Content(r), k, v);
  }

  /** The map of a node's pairs, when the keys of its three parts are apart. */
  lemma PairMapOfNode<V>(sl: seq<(int, V)>, k: int, v: V, sr: seq<(int, V)>)
    requires PairKeys(sl) !! {k} + PairKeys(sr)
    requires k !in PairKeys(sr)
    ensures PairMap(sl + [(k, v)] + sr) == PairMap(sl) + (map[k := v] + PairMap(sr))
  {
    assert PairKeys([(k, v)]) == {k} by {
      assert [(k, v)][0].0 == k;
    }
    PairKeysAppend([(k, v)], sr);
    PairMapAppend(sl, [(k, v)] + sr);
    PairMapAppend([(k, v)], sr);
    assert PairMap([(k, v)]) == map[k := v] by {
      assert [(k, v)][..0] == [];
    }
    assert sl + [(k, v)] + sr == sl + ([(k, v)] + sr);
  }

  /** The keys left of a node, the node's own and those right of it are
      apart. */
  lemma BstKeysApart<V>(t: Tree<V>)
    requires t.Node? && IsBst(t)
    ensures Keys(t.left) !! {t.key} + Keys(t.right)
  {
    forall x | x in Keys(t.left)
      ensures x !in {t.key} + Keys(t.right)
    {
      assert x < t.key;
    }
  }

  lemma MapUnionUpdate<V>(a: map<int, V>, b: map<int, V>, k: int, v: V)
    requires k !in a && k !in b
    ensures (a + b)[k := v] == a + (map[k := v] + b)
  {
  }

  lemma PairKeysAppend<V>(a: seq<(int, V)>, b: seq<(int, V)>)
    ensures PairKeys(a + b) == PairKeys(a) + PairKeys(b)
  {
    forall x | x in PairKeys(a + b)
      ensures x in PairKeys(a) + PairKeys(b)
    {
      var i :| 0 <= i < |a + b| && (a + b)[i].0 == x;
      if i >= |a| {
        assert (a + b)[i] == b[i - |a|];
      }
    }
    forall x | x in PairKeys(a) + PairKeys(b)
      ensures x in PairKeys(a + b)
    {
      if x in PairKeys(a) {
        var i :| 0 <= i < |a| && a[i].0 == x;
        assert (a + b)[i] == a[i];
      } else {
        var i :| 0 <= i < |b| && b[i].0 == x;
        assert (a + b)[|a| + i] == b[i];
      }
    }
  }

  /** The map of a concatenation whose halves have disjoint keys is the
      union of their maps. */
  lemma {:induction false} PairMapAppend<V>(a: seq<(int, V)>, b: seq<(int, V)>)
    requires PairKeys(a) !! PairKeys(b)
    ensures PairMap(a + b) == PairMap(a) + PairMap(b)
    decreases |b|
  {
    if |b| != 0 {
      var b' := b[..|b| - 1];
      assert (a + b)[..|a + b| - 1] == a + b';
      assert PairKeys(b') <= PairKeys(b) by {
        forall x | x in PairKeys(b')
          ensures x in PairKeys(b)
        {
          var i :| 0 <= i < |b'| && b'[i].0 == x;
          assert b[i] == b'[i];
        }
      }
      PairMapAppend(a, b');
    } else {
      assert a + b == a;
    }
  }

  /** Inserting into a search tree keeps it a search tree, and binds `key`
      to `value` without touching any other key. */
  lemma {:induction false} InsertCorrect<V>(t: Tree<V>, key: int, value: V)
    requires IsBst(t) && PositiveHeights(t)
    ensures IsBst(InsertNode(t, key, value))
    ensures Content(InsertNode(t, key, value)) == Content(t)[key := value]
    ensures Keys(InsertNode(t, key, value)) == Keys(t) + {key}
  {
    match t
    case Nil =>
    case Node(k, v, l, r, h) =>
      if key < k {
        InsertCorrect(l, key, value);
        InsertedLeft(t, InsertNode(l, key, value), key, value);
        BalancePreserves(Node(k, v, InsertNode(l, key, value), r, h));
      } else if k < key {
        InsertCorrect(r, key, value);
        InsertedRight(t, InsertNode(r, key, value), key, value);
        BalancePreserves(Node(k, v, l, InsertNode(r, key, value), h));
      } else {
        ContentKeys(l);
        ContentKeys(r);
      }
  }

  /** Replacing the left subtree by one with `key` inserted, before any
      rebalancing. */
  lemma InsertedLeft<V>(t: Tree<V>, l': Tree<V>, key: int, value: V)
    requires t.Node? && IsBst(t) && key < t.key
    requires IsBst(l') && Content(l') == Content(t.left)[key := value] && Keys(l') == Keys(t.left) + {key}
    ensures IsBst(Node(t.key, t.value, l', t.right, t.height))
    ensures Content(Node(t.key, t.value, l', t.right, t.height)) == Content(t)[key := value]
    ensures Keys(Node(t.key, t.value, l', t.right, t.height)) == Keys(t) + {key}
  {
    ContentKeys(t.right);
    UpdateLeftOperand(Content(t.left), Content(t.right), t.key, t.value, key, value);
  }

  lemma InsertedRight<V>(t: Tree<V>, r': Tree<V>, key: int, value: V)
    requires t.Node? && IsBst(t) && t.key < key
    requires IsBst(r') && Content(r') == Content(t.right)[key := value] && Keys(r') == Keys(t.right) + {key}
    ensures IsBst(Node(t.key, t.value, t.left, r', t.height))
    ensures Content(Node(t.key, t.value, t.left, r', t.height)) == Content(t)[key := value]
    ensures Keys(Node(t.key, t.value, t.left, r', t.height)) == Keys(t) + {key}
  {
    UpdateRightOperand(Content(t.left), Content(t.right), t.key, t.value, key, value);
  }

  /** An update of the left operand of a union that the right operand does
      not shadow, under a node's own binding. */
  lemma UpdateLeftOperand<V>(a: map<int, V>, b: map<int, V>, k: int, v: V, key: int, value: V)
    requires key !in b && key != k
    ensures (a[key := value] + b)[k := v] == (a + b)[k := v][key := value]
  {
  }

  lemma UpdateRightOperand<V>(a: map<int, V>, b: map<int, V>, k: int, v: V, key: int, value: V)
    requires key != k
    ensures (a + b[key := value])[k := v] == (a + b)[k := v][key := value]
  {
  }

  /** Rebalancing keeps the search order, the map and the key set. */
  lemma BalancePreserves<V>(n: Tree<V>)
    requires n.Node? && PositiveHeights(n) && IsBst(n)
    ensures IsBst(Balance(n)) && Content(Balance(n)) == Content(n) && Keys(Balance(n)) == Keys(n)
  {
    InorderDeterminesContent(n, Balance(n));
    InorderKeys(n);
    InorderKeys(Balance(n));
  }

  /** After `m2 = m.insert(k, v)`, `m2.find(k)` is `v` and every other key
      finds what it found in `m`. */
  lemma FindAfterInsert<V>(m: PersistentMap<V>, key: int, value: V, other: int)
    requires Valid(m)
    ensures Lookup(Insert(m, key, value).root, key) == Some(value)
    ensures other != key ==> Lookup(Insert(m, key, value).root, other) == Lookup(m.root, other)
  {
  }
}
