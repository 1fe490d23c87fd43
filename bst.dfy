/**
 * BST<T>: the plain (unbalanced) binary search tree of BST.h, instantiated
 * as in the program with std::string keys.  The node structure is a value
 * tree; the BST object owns its root and replaces it on insert and assignment.
 */
module SearchTrees {
  import opened StringOrder

  datatype Tree = Leaf | Node(left: Tree, key: string, right: Tree)

  function Keys(t: Tree): set<string>
  {
    match t
    case Leaf => {}
    case Node(l, k, r) => Keys(l) + {k} + Keys(r)
  }

  function Size(t: Tree): nat
  {
    match t
    case Leaf => 0
    case Node(l, _, r) => Size(l) + 1 + Size(r)
  }

  /** Keys held by nodes whose two children are both empty. */
  function LeafKeys(t: Tree): set<string>
  {
    match t
    case Leaf => {}
    case Node(Leaf, k, Leaf) => {k}
    case Node(l, _, r) => LeafKeys(l) + LeafKeys(r)
  }

  /** Left subtree keys < node key < right subtree keys, at every node. */
  ghost predicate IsBST(t: Tree)
  {
    match t
    case Leaf => true
    case Node(l, k, r) =>
      && IsBST(l) && IsBST(r)
      && (forall x :: x in Keys(l) ==> Less(x, k))
      && (forall x :: x in Keys(r) ==> Less(k, x))
  }

  /** insert(node, value): descend left on <, right on >, keep the tree on equality. */
  function InsertNode(t: Tree, value: string): (r: Tree)
    ensures Keys(r) == Keys(t) + {value}
  {
    match t
    case Leaf => Node(Leaf, value, Leaf)
    case Node(l, k, rt) =>
      if Less(value, k) then Node(InsertNode(l, value), k, rt)
      else if Less(k, value) then Node(l, k, InsertNode(rt, value))
      else LessTotal(value, k); t
  }

  /** search(node, value): equality first, then left on <, else right. */
  function SearchNode(t: Tree, value: string): bool
  {
    match t
    case Leaf => false
    case Node(l, k, r) =>
      if k == value then true
      else if Less(value, k) then SearchNode(l, value)
      else SearchNode(r, value)
  }

  /** The keys in the order InOrder hands them to its callback: left, node, right. */
  function InOrderOf(t: Tree): seq<string>
  {
    match t
    case Leaf => []
    case Node(l, k, r) => InOrderOf(l) + [k] + InOrderOf(r)
  }

  /** PreOrder's callback order: node, left, right. */
  function PreOrderOf(t: Tree): seq<string>
  {
    match t
    case Leaf => []
    case Node(l, k, r) => [k] + PreOrderOf(l) + PreOrderOf(r)
  }

  /** PostOrder's callback order: left, right, node. */
  function PostOrderOf(t: Tree): seq<string>
  {
    match t
    case Leaf => []
    case Node(l, k, r) => PostOrderOf(l) + PostOrderOf(r) + [k]
  }

  /** copy(node): a node-by-node clone, structurally equal to its source. */
  function CopyNode(t: Tree): (r: Tree)
    ensures r == t
  {
    match t
    case Leaf => Leaf
    case Node(l, k, rt) => Node(CopyNode(l), k, CopyNode(rt))
  }

  /** insert keeps the search-tree ordering. */
  lemma {:induction false} InsertPreservesOrder(t: Tree, value: string)
    requires IsBST(t)
    ensures IsBST(InsertNode(t, value))
  {
    match t
    case Leaf =>
    case Node(l, k, r) =>
      if Less(value, k) {
        InsertPreservesOrder(l, value);
      } else if Less(k, value) {
        InsertPreservesOrder(r, value);
      }
  }

  /** Inserting a value that search finds leaves the tree exactly as it was. */
  lemma {:induction false} InsertFoundUnchanged(t: Tree, value: string)
    requires SearchNode(t, value)
    ensures InsertNode(t, value) == t
  {
    match t
    case Node(l, k, r) =>
      if k == value {
        LessIrreflexive(value);
      } else if Less(value, k) {
        InsertFoundUnchanged(l, value);
      } else {
        LessTotal(value, k);
        InsertFoundUnchanged(r, value);
      }
  }

  /** Inserting an absent value adds exactly one node, and that node is a leaf. */
  lemma {:induction false} InsertAbsentAddsLeaf(t: Tree, value: string)
    requires value !in Keys(t)
    ensures Size(InsertNode(t, value)) == Size(t) + 1
    ensures value in LeafKeys(InsertNode(t, value))
  {
    match t
    case Leaf =>
    case Node(l, k, r) =>
      LessTotal(value, k);
      if Less(value, k) {
        InsertAbsentAddsLeaf(l, value);
        assert InsertNode(l, value) != Leaf;
      } else {
        InsertAbsentAddsLeaf(r, value);
        assert InsertNode(r, value) != Leaf;
      }
  }

  /** On an ordered tree, search answers exactly key membership. */
  lemma {:induction false} SearchFindsKeys(t: Tree, value: string)
    requires IsBST(t)
    ensures SearchNode(t, value) <==> value in Keys(t)
  {
    match t
    case Leaf =>
    case Node(l, k, r) =>
      if k != value {
        SearchFindsKeys(l, value);
        SearchFindsKeys(r, value);
        if Less(value, k) && value in Keys(r) {
          LessAsymmetric(value, k);
        }
      }
  }

  /** In-order visits every key of an ordered tree once, in strictly ascending order. */
  lemma {:induction false} InOrderAscending(t: Tree)
    requires IsBST(t)
    ensures StrictlyAscending(InOrderOf(t))
    ensures forall x :: x in InOrderOf(t) <==> x in Keys(t)
    ensures |InOrderOf(t)| == Size(t)
    ensures forall i, j :: 0 <= i < j < |InOrderOf(t)| ==> InOrderOf(t)[i] != InOrderOf(t)[j]
  {
    InOrderKeys(t);
    match t
    case Leaf =>
    case Node(l, k, r) =>
      InOrderAscending(l);
      InOrderAscending(r);
      InOrderKeys(l);
      InOrderKeys(r);
      JoinAscending(InOrderOf(l), k, InOrderOf(r));
      AscendingHasNoDuplicates(InOrderOf(t));
  }

  /** In-order lists the keys, one entry per node. */
  lemma {:induction false} InOrderKeys(t: Tree)
    ensures forall x :: x in InOrderOf(t) <==> x in Keys(t)
    ensures |InOrderOf(t)| == Size(t)
  {
    match t
    case Leaf =>
    case Node(l, k, r) =>
      InOrderKeys(l);
      InOrderKeys(r);
  }

  /** An ascending run, a key above all of it, and an ascending run above the key make one ascending run. */
  lemma JoinAscending(a: seq<string>, k: string, b: seq<string>)
    requires StrictlyAscending(a) && StrictlyAscending(b)
    requires forall x :: x in a ==> Less(x, k)
    requires forall x :: x in b ==> Less(k, x)
    ensures StrictlyAscending(a + [k] + b)
  {
    var s := a + [k] + b;
    forall i, j | 0 <= i < j < |s|
      ensures Less(s[i], s[j])
    {
      if j < |a| {
        assert s[i] == a[i] && s[j] == a[j];
      } else if i < |a| && j == |a| {
        assert s[i] == a[i] && a[i] in a;
      } else if i < |a| {
        assert s[i] == a[i] && a[i] in a;
        assert s[j] == b[j - |a| - 1] && s[j] in b;
        LessTransitive(s[i], k, s[j]);
      } else if i == |a| {
        assert s[j] == b[j - |a| - 1] && s[j] in b;
      } else {
        assert s[i] == b[i - |a| - 1] && s[j] == b[j - |a| - 1];
      }
    }
  }

  /** Pre-order and post-order visit the same keys as in-order; the root comes first, resp. last. */
  lemma TraversalsAgree(t: Tree)
    ensures |PreOrderOf(t)| == |PostOrderOf(t)| == |InOrderOf(t)| == Size(t)
    ensures multiset(PreOrderOf(t)) == multiset(InOrderOf(t)) == multiset(PostOrderOf(t))
    ensures t.Node? ==> PreOrderOf(t)[0] == t.key && PostOrderOf(t)[Size(t) - 1] == t.key
  {
    TraversalSameKeys(t);
    TraversalLengths(t);
    if t.Node? {
      assert PreOrderOf(t) == [t.key] + PreOrderOf(t.left) + PreOrderOf(t.right);
      assert PostOrderOf(t) == PostOrderOf(t.left) + PostOrderOf(t.right) + [t.key];
    }
  }

  /** Each traversal visits one key per node. */
  lemma {:induction false} TraversalLengths(t: Tree)
    ensures |PreOrderOf(t)| == |PostOrderOf(t)| == |InOrderOf(t)| == Size(t)
  {
    match t
    case Leaf =>
    case Node(l, k, r) =>
      TraversalLengths(l);
      TraversalLengths(r);
  }

  /** The three traversals list the same multiset of keys. */
  lemma {:induction false} TraversalSameKeys(t: Tree)
    ensures multiset(PreOrderOf(t)) == multiset(InOrderOf(t)) == multiset(PostOrderOf(t))
  {
    match t
    case Leaf =>
    case Node(l, k, r) =>
      TraversalSameKeys(l);
      TraversalSameKeys(r);
      var pre, ino, post := PreOrderOf(t), InOrderOf(t), PostOrderOf(t);
      assert pre == [k] + PreOrderOf(l) + PreOrderOf(r);
      assert ino == InOrderOf(l) + [k] + InOrderOf(r);
      assert post == PostOrderOf(l) + PostOrderOf(r) + [k];
  }

  /** Pre-order lists exactly the keys of the tree. */
  lemma {:induction false} PreOrderKeys(t: Tree)
    ensures forall x :: x in PreOrderOf(t) <==> x in Keys(t)
  {
    match t
    case Leaf =>
    case Node(l, k, r) =>
      PreOrderKeys(l);
      PreOrderKeys(r);
  }

  /** Post-order lists exactly the keys of the tree. */
  lemma {:induction false} PostOrderKeys(t: Tree)
    ensures forall x :: x in PostOrderOf(t) <==> x in Keys(t)
  {
    match t
    case Leaf =>
    case Node(l, k, r) =>
      PostOrderKeys(l);
      PostOrderKeys(r);
  }

  /** In an ordered tree, the keys of the left subtree are exactly the keys below the root, those of the right exactly the keys above. */
  lemma SidesOfRoot(t: Tree)
    requires IsBST(t) && t.Node?
    ensures forall x :: x in Keys(t.left) <==> x in Keys(t) && Less(x, t.key)
    ensures forall x :: x in Keys(t.right) <==> x in Keys(t) && Less(t.key, x)
  {
    forall x | x in Keys(t) && Less(x, t.key)
      ensures x in Keys(t.left)
    {
      LessIrreflexive(x);
      if x in Keys(t.right) {
        LessAsymmetric(x, t.key);
      }
    }
    forall x | x in Keys(t) && Less(t.key, x)
      ensures x in Keys(t.right)
    {
      LessIrreflexive(x);
      if x in Keys(t.left) {
        LessAsymmetric(x, t.key);
      }
    }
  }

  /**
   * Pre-order of an ordered tree: the root, then the pre-order of the left
   * subtree, which holds exactly the keys below the root, then the
   * pre-order of the right subtree, which holds exactly the keys above it.
   */
  lemma PreOrderSplitsAtRoot(t: Tree)
    requires IsBST(t) && t.Node?
    ensures |PreOrderOf(t)| == Size(t) && PreOrderOf(t)[0] == t.key
    ensures PreOrderOf(t)[1..1 + Size(t.left)] == PreOrderOf(t.left)
    ensures PreOrderOf(t)[1 + Size(t.left)..] == PreOrderOf(t.right)
    ensures forall x :: x in PreOrderOf(t)[1..1 + Size(t.left)] <==> x in Keys(t) && Less(x, t.key)
    ensures forall x :: x in PreOrderOf(t)[1 + Size(t.left)..] <==> x in Keys(t) && Less(t.key, x)
  {
    var v, pl, pr := PreOrderOf(t), PreOrderOf(t.left), PreOrderOf(t.right);
    TraversalLengths(t);
    TraversalLengths(t.left);
    assert v == [t.key] + pl + pr;
    assert v[1..1 + Size(t.left)] == pl;
    assert v[1 + Size(t.left)..] == pr;
    PreOrderKeys(t.left);
    PreOrderKeys(t.right);
    SidesOfRoot(t);
  }

  /**
   * Post-order of an ordered tree: the post-order of the left subtree,
   * which holds exactly the keys below the root, then the post-order of the
   * right subtree, which holds exactly the keys above it, then the root.
   */
  lemma PostOrderSplitsAtRoot(t: Tree)
    requires IsBST(t) && t.Node?
    ensures |PostOrderOf(t)| == Size(t) && PostOrderOf(t)[Size(t) - 1] == t.key
    ensures PostOrderOf(t)[..Size(t.left)] == PostOrderOf(t.left)
    ensures PostOrderOf(t)[Size(t.left)..Size(t) - 1] == PostOrderOf(t.right)
    ensures forall x :: x in PostOrderOf(t)[..Size(t.left)] <==> x in Keys(t) && Less(x, t.key)
    ensures forall x :: x in PostOrderOf(t)[Size(t.left)..Size(t) - 1] <==> x in Keys(t) && Less(t.key, x)
  {
    var v, pl, pr := PostOrderOf(t), PostOrderOf(t.left), PostOrderOf(t.right);
    TraversalLengths(t);
    TraversalLengths(t.left);
    TraversalLengths(t.right);
    assert v == pl + pr + [t.key];
    assert v[..Size(t.left)] == pl;
    assert v[Size(t.left)..Size(t) - 1] == pr;
    PostOrderKeys(t.left);
    PostOrderKeys(t.right);
    SidesOfRoot(t);
  }

  /** The tree with root "b", left child "a" and right child "c" is walked b, a, c and a, c, b. */
  lemma TraversalExample()
    ensures PreOrderOf(Node(Node(Leaf, "a", Leaf), "b", Node(Leaf, "c", Leaf))) == ["b", "a", "c"]
    ensures PostOrderOf(Node(Node(Leaf, "a", Leaf), "b", Node(Leaf, "c", Leaf))) == ["a", "c", "b"]
  {
  }

  /** The BST object: it owns the root of the node structure. */
  class BST {
    var root: Tree

    ghost predicate Valid()
      reads this
    {
      IsBST(root)
    }

    /** BST(): an empty tree. */
    constructor ()
      ensures Valid() && root == Leaf && Keys(root) == {}
    {
      root := Leaf;
    }

    /** BST(const BST& other): a deep clone, equal to the source. */
    constructor Copy(other: BST)
      ensures root == other.root
      ensures other.Valid() ==> Valid()
    {
      root := CopyNode(other.root);
    }

    /** operator=: replaces the tree by a clone of other's; self-assignment changes nothing. */
    method Assign(other: BST)
      modifies this
      ensures root == old(other.root)
      ensures other == this ==> root == old(root)
      ensures old(other.Valid()) ==> Valid()
    {
      if other != this {
        root := CopyNode(other.root);
      }
    }

    /** insert(value): adds value when absent, keeps the ordering. */
    method Insert(value: string)
      requires Valid()
      modifies this
      ensures Valid()
      ensures root == InsertNode(old(root), value)
      ensures Keys(root) == old(Keys(root)) + {value}
      ensures old(value in Keys(root)) ==> root == old(root)
      ensures old(value !in Keys(root)) ==> Size(root) == old(Size(root)) + 1 && value in LeafKeys(root)
    {
      InsertPreservesOrder(root, value);
      if value in Keys(root) {
        SearchFindsKeys(root, value);
        InsertFoundUnchanged(root, value);
      } else {
        InsertAbsentAddsLeaf(root, value);
      }
      root := InsertNode(root, value);
    }

    /** search(value). */
    method Search(value: string) returns (found: bool)
      requires Valid()
      ensures found <==> value in Keys(root)
    {
      SearchFindsKeys(root, value);
      found := SearchNode(root, value);
    }

    /** InOrder(process): the keys handed to the callback, in call order. */
    method InOrder() returns (visited: seq<string>)
      requires Valid()
      ensures StrictlyAscending(visited)
      ensures forall x :: x in visited <==> x in Keys(root)
      ensures |visited| == Size(root)
    {
      InOrderAscending(root);
      visited := InOrderOf(root);
    }

    /** PreOrder(process): the keys handed to the callback, in call order. */
    method PreOrder() returns (visited: seq<string>)
      ensures visited == PreOrderOf(root)
      ensures multiset(visited) == multiset(InOrderOf(root))
      ensures root.Node? ==> visited[0] == root.key
    {
      TraversalsAgree(root);
      visited := PreOrderOf(root);
    }

    /** PostOrder(process): the keys handed to the callback, in call order. */
    method PostOrder() returns (visited: seq<string>)
      ensures visited == PostOrderOf(root)
      ensures multiset(visited) == multiset(InOrderOf(root))
      ensures root.Node? ==> |visited| > 0 && visited[|visited| - 1] == root.key
    {
      TraversalsAgree(root);
      visited := PostOrderOf(root);
    }
  }
}
