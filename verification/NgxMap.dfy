/**
 The ordered map: a binary search tree of caller-owned nodes with parent pointers, ordered by hash first and by
 the comparator among equal hashes. `Contents` is the in-order sequence of nodes; every operation is specified
 by what it does to that sequence.
 */
module NgxMap {
  import opened Bytes
  import opened MapShape

  /** What the header asks of a comparator: -1, 0 or 1, and a total order. */
  ghost predicate Lawful<K(!new)>(cmp: (K, K) -> int) {
    && (forall a, b :: -1 <= cmp(a, b) <= 1 && cmp(b, a) == -cmp(a, b))
    && (forall a, b, c :: cmp(a, b) <= 0 && cmp(b, c) <= 0 ==> cmp(a, c) <= 0)
  }

  predicate Less<K>(hash: K -> nat, cmp: (K, K) -> int, a: K, b: K) {
    hash(a) < hash(b) || (hash(a) == hash(b) && cmp(a, b) < 0)
  }

  /** Two keys the map does not tell apart. */
  predicate Same<K>(hash: K -> nat, cmp: (K, K) -> int, a: K, b: K) {
    hash(a) == hash(b) && cmp(a, b) == 0
  }

  lemma LessIsOrder<K(!new)>(hash: K -> nat, cmp: (K, K) -> int, a: K, b: K, c: K)
    requires Lawful(cmp)
    ensures !Less(hash, cmp, a, a)
    ensures Less(hash, cmp, a, b) ==> !Less(hash, cmp, b, a) && !Same(hash, cmp, a, b)
    ensures Less(hash, cmp, a, b) || Less(hash, cmp, b, a) || Same(hash, cmp, a, b)
    ensures Less(hash, cmp, a, b) && Less(hash, cmp, b, c) ==> Less(hash, cmp, a, c)
    ensures Same(hash, cmp, a, b) ==> Same(hash, cmp, b, a)
    ensures Same(hash, cmp, a, b) && Less(hash, cmp, b, c) ==> Less(hash, cmp, a, c)
    ensures Less(hash, cmp, a, b) && Same(hash, cmp, b, c) ==> Less(hash, cmp, a, c)
    ensures Same(hash, cmp, a, b) && Same(hash, cmp, b, c) ==> Same(hash, cmp, a, c)
  {
    assert cmp(a, a) == 0;
    assert cmp(a, b) == -cmp(b, a) && cmp(b, c) == -cmp(c, b) && cmp(a, c) == -cmp(c, a);
    if cmp(a, b) <= 0 && cmp(b, c) <= 0 && cmp(a, c) == 0 {
      assert cmp(c, a) <= 0;
      assert cmp(b, a) <= 0 && cmp(c, b) <= 0;
    }
  }

  class MapNode<K> {
    var key: nat
    var rawKey: K
    var left: MapNode?<K>
    var right: MapNode?<K>
    var parent: MapNode?<K>

    constructor (rawKey: K)
      ensures this.rawKey == rawKey
    {
      this.rawKey := rawKey;
      key, left, right, parent := 0, null, null, null;
    }
  }

  ghost function Opt<K>(p: MapNode?<K>): Option<MapNode<K>> {
    if p == null then None else Some(p)
  }

  ghost function Ref<K>(p: MapNode?<K>): set<MapNode<K>> {
    if p == null then {} else {p}
  }

  /** The fields of a node are these links. */
  ghost predicate Is<K>(n: MapNode<K>, link: Link<MapNode<K>>)
    reads n
  {
    Opt(n.left) == link.left && Opt(n.right) == link.right && Opt(n.parent) == link.parent
  }

  /** Links that a node is to have. */
  ghost predicate Has<K>(m: map<MapNode<K>, Link<MapNode<K>>>, n: MapNode?<K>, left: MapNode?<K>, right: MapNode?<K>,
                         parent: MapNode?<K>) {
    n != null && n in m && m[n] == Link(Opt(left), Opt(right), Opt(parent))
  }

  /** Keys strictly increase along the sequence. */
  ghost predicate Ascending<K(!new)>(s: seq<MapNode<K>>, hash: K -> nat, cmp: (K, K) -> int)
    reads s`rawKey
  {
    forall i, j :: 0 <= i < j < |s| ==> Less(hash, cmp, s[i].rawKey, s[j].rawKey)
  }

  lemma {:induction false} NodesAreAllocated<K>(t: Shape<MapNode<K>>)
    ensures forall n :: n in Nodes(t) ==> allocated(n)
    decreases t
  {
    if t.Br? {
      NodesAreAllocated(t.left);
      NodesAreAllocated(t.right);
    }
  }

  /** A turn at the node at the end of a path from the root: what rebalancing is made of. */
  datatype Turn = Turn(path: seq<bool>, left: bool)

  /** The tree with the subtree at the end of the path turned, where that is possible. */
  ghost function Turned<N>(t: Shape<N>, path: seq<bool>, left: bool): Shape<N>
    decreases path
  {
    if t.Leaf? then t
    else if path == [] then
      if left && t.right.Br? then TurnedLeft(t) else if !left && t.left.Br? then TurnedRight(t) else t
    else if path[0] then t.(left := Turned(t.left, path[1..], left))
    else t.(right := Turned(t.right, path[1..], left))
  }

  ghost function AllTurned<N>(t: Shape<N>, turns: seq<Turn>): Shape<N>
    decreases turns
  {
    if turns == [] then t else AllTurned(Turned(t, turns[0].path, turns[0].left), turns[1..])
  }

  class Map<K(!new)> {
    const hash: K -> nat
    const cmp: (K, K) -> int
    var root: MapNode?<K>
    ghost var shape: Shape<MapNode<K>>

    /** The nodes in key order. */
    ghost function Contents(): seq<MapNode<K>>
      reads this`shape
    {
      Inorder(shape)
    }

    ghost predicate Linked()
      reads this, Nodes(shape)
    {
      && Once(shape)
      && Opt(root) == Root(shape)
      && (forall n :: n in Nodes(shape) ==>
            Is(n, Links(shape, None)[n]))
    }

    ghost predicate Keyed()
      reads this`shape, Nodes(shape)`key, Nodes(shape)`rawKey
    {
      forall n :: n in Nodes(shape) ==> n.key == hash(n.rawKey)
    }

    /** The tree is well linked; nothing is said of its keys. */
    ghost predicate Built()
      reads this, Nodes(shape)
    {
      Lawful(cmp) && Linked()
    }

    ghost predicate Valid()
      reads this, Nodes(shape)
    {
      InorderHasNodes(shape);
      Built() && Keyed() && Ascending(Contents(), hash, cmp)
    }

    /** ngx_map_init */
    constructor (hash: K -> nat, cmp: (K, K) -> int)
      requires Lawful(cmp)
      ensures Valid() && Contents() == [] && this.hash == hash && this.cmp == cmp
    {
      this.hash, this.cmp := hash, cmp;
      root := null;
      shape := Leaf;
    }

    ghost predicate LessKey(a: K, b: K) {
      Less(hash, cmp, a, b)
    }

    ghost predicate SameKey(a: K, b: K) {
      Same(hash, cmp, a, b)
    }

    /** At a hole of the tree: the node there, its links and its key. */
    lemma At(c: Ctx<MapNode<K>>, t: Shape<MapNode<K>>)
      requires Built() && Plug(c, t) == shape
      ensures Once(t) && OnceAround(c) && Nodes(t) !! Around(c)
      ensures Contents() == Before(c) + Inorder(t) + Behind(c)
      ensures t.Br? ==>
                && t.node in Nodes(shape) && t.node in Contents()
                && Opt(t.node.left) == Root(t.left) && Opt(t.node.right) == Root(t.right)
                && Opt(t.node.parent) == Parent(c)
    {
      NodesOfPlug(c, t);
      InorderOfPlug(c, t);
      LinksAtHole(c, t);
      InorderHasNodes(shape);
    }

    /** The key, if it is in the tree, is in the hole: less is before, more is behind. */
    ghost predicate Narrowed(c: Ctx<MapNode<K>>, key: K)
      reads Before(c)`rawKey, Behind(c)`rawKey
    {
      && (forall n :: n in Before(c) ==> LessKey(n.rawKey, key))
      && (forall n :: n in Behind(c) ==> LessKey(key, n.rawKey))
    }

    lemma NarrowLeft(c: Ctx<MapNode<K>>, t: Shape<MapNode<K>>, key: K)
      requires Valid() && Plug(c, t) == shape && t.Br? && Narrowed(c, key) && LessKey(key, t.node.rawKey)
      ensures Plug(LeftOf(t.node, t.right, c), t.left) == shape && Narrowed(LeftOf(t.node, t.right, c), key)
    {
      hide Inorder, Nodes, Links, Once, Linked, Keyed, Plug, Behind, Lawful;
      var c' := LeftOf(t.node, t.right, c);
      Deeper(c, t);
      BelowOnce(c, t);
      InorderOfPlug(c', t.left);
      var s := Contents();
      var at := |Before(c)| + |Inorder(t.left)|;
      assert s == Before(c) + Inorder(t.left) + Behind(c');
      assert s[at..] == Behind(c') && s[at] == t.node;
      forall n | n in Behind(c') ensures LessKey(key, n.rawKey) {
        var i :| 0 <= i < |Behind(c')| && Behind(c')[i] == n;
        assert s[at + i] == n;
        LessIsOrder(hash, cmp, key, t.node.rawKey, n.rawKey);
      }
    }

    lemma BelowOnce(c: Ctx<MapNode<K>>, t: Shape<MapNode<K>>)
      requires t.Br?
      ensures Before(LeftOf(t.node, t.right, c)) == Before(c)
      ensures Behind(RightOf(t.left, t.node, c)) == Behind(c)
      ensures Behind(LeftOf(t.node, t.right, c)) == [t.node] + (Inorder(t.right) + Behind(c))
      ensures Before(RightOf(t.left, t.node, c)) == Before(c) + Inorder(t.left) + [t.node]
    {
    }

    /** Where the node at a hole stands in the order. */
    lemma Within(c: Ctx<MapNode<K>>, t: Shape<MapNode<K>>)
      requires Built() && Plug(c, t) == shape && t.Br?
      ensures var i := |Before(c)| + |Inorder(t.left)|;
              && i < |Contents()| && Contents()[i] == t.node
              && |Contents()| == i + 1 + |Inorder(t.right)| + |Behind(c)|
      ensures t.node.left == null ==> Inorder(t.left) == []
      ensures t.node.right == null ==> Inorder(t.right) == []
    {
      At(c, t);
      hide Nodes, Links, Once, Linked, Keyed, Plug, Before, Behind;
    }

    /** A step up: the parent's tree in the parent's hole. */
    lemma Upward(c: Ctx<MapNode<K>>, t: Shape<MapNode<K>>)
      requires Built() && Plug(c, t) == shape && t.Br?
      ensures c.LeftOf? ==> Plug(c.up, Br(t, c.node, c.right)) == shape && |Before(c.up)| == |Before(c)|
      ensures c.RightOf? ==>
                && Plug(c.up, Br(c.left, c.node, t)) == shape
                && |Before(c.up)| + |Inorder(Br(c.left, c.node, t))| == |Before(c)| + |Inorder(t)|
      ensures c.LeftOf? ==>
                var i := |Before(c)| + |Inorder(t)|;
                i < |Contents()| && Contents()[i] == c.node
      ensures c.RightOf? ==> |Before(c)| > 0 && |Before(c)| <= |Contents()| && Contents()[|Before(c)| - 1] == c.node
      ensures c.Top? ==> |Contents()| == |Inorder(t)| && |Before(c)| == 0
    {
      InorderOfPlug(c, t);
      hide Nodes, Links, Once, Linked, Keyed;
    }

    lemma NarrowRight(c: Ctx<MapNode<K>>, t: Shape<MapNode<K>>, key: K)
      requires Valid() && Plug(c, t) == shape && t.Br? && Narrowed(c, key) && LessKey(t.node.rawKey, key)
      ensures Plug(RightOf(t.left, t.node, c), t.right) == shape && Narrowed(RightOf(t.left, t.node, c), key)
    {
      hide Inorder, Nodes, Links, Once, Linked, Keyed, Plug, Before, Lawful;
      var c' := RightOf(t.left, t.node, c);
      Deeper(c, t);
      BelowOnce(c, t);
      InorderOfPlug(c', t.right);
      var s := Contents();
      var at := |Before(c)| + |Inorder(t.left)|;
      assert s == Before(c') + Inorder(t.right) + Behind(c);
      assert s[..at + 1] == Before(c') && s[at] == t.node;
      forall n | n in Before(c') ensures LessKey(n.rawKey, key) {
        var i :| 0 <= i < |Before(c')| && Before(c')[i] == n;
        assert s[i] == n;
        LessIsOrder(hash, cmp, n.rawKey, t.node.rawKey, key);
      }
    }

    lemma NotFound(c: Ctx<MapNode<K>>, key: K)
      requires Valid() && Plug(c, Leaf) == shape && Narrowed(c, key)
      ensures forall n :: n in Contents() ==> !SameKey(key, n.rawKey)
    {
      InorderOfPlug(c, Leaf);
      forall n | n in Contents() ensures !SameKey(key, n.rawKey) {
        LessIsOrder(hash, cmp, key, n.rawKey, key);
        LessIsOrder(hash, cmp, n.rawKey, key, n.rawKey);
      }
    }

    /** The whole tree is the first hole's tree. */
    lemma AtRoot(key: K)
      requires Valid()
      ensures Plug(Top, shape) == shape && Narrowed(Top, key) && Opt(root) == Root(shape)
      ensures root == null ==> Contents() == []
    {
    }

    /** ngx_map_find: the node with this key, or null when there is none. */
    method Find(key: K) returns (node: MapNode?<K>)
      requires Valid()
      ensures Valid() && (node != null ==> node in Contents() && SameKey(key, node.rawKey))
      ensures node == null ==> forall n :: n in Contents() ==> !SameKey(key, n.rawKey)
    {
      hide Links, Nodes, Inorder, Plug, Before, Behind, Once, Around;
      AtRoot(key);
      if root == null {
        return null;
      }
      var k := hash(key);
      var p := root;
      ghost var c: Ctx<MapNode<K>>, t := Top, shape;
      while true
        invariant Valid() && p != null && Opt(p) == Root(t) && Plug(c, t) == shape && Narrowed(c, key)
        decreases t
      {
        At(c, t);
        KeyOf(p);
        var r := if k < p.key then -1 else if k > p.key then 1 else cmp(key, p.rawKey);
        LessIsOrder(hash, cmp, key, p.rawKey, key);
        if r == -1 {
          NarrowLeft(c, t, key);
          c, t := LeftOf(p, t.right, c), t.left;
          p := p.left;
        } else if r == 1 {
          NarrowRight(c, t, key);
          c, t := RightOf(t.left, p, c), t.right;
          p := p.right;
        } else {
          return p;
        }
        if p == null {
          NotFound(c, key);
          return null;
        }
      }
    }

    // ----- walking in order

    /** ngx_map_begin */
    method Begin() returns (node: MapNode?<K>)
      requires Valid()
      ensures Valid()
      ensures Opt(node) == if Contents() == [] then None else Some(Contents()[0])
    {
      hide Links, Nodes, Inorder, Once, Linked, Keyed, Ascending;
      if root == null {
        InNone();
        return null;
      }
      AtTop();
      AtEnds();
      node := Leftmost(root, Top, shape);
    }

    /** ngx_map_rbegin */
    method RBegin() returns (node: MapNode?<K>)
      requires Valid()
      ensures Valid()
      ensures Opt(node) == if Contents() == [] then None else Some(Contents()[|Contents()| - 1])
    {
      hide Links, Nodes, Inorder, Once, Linked, Keyed, Ascending;
      if root == null {
        InNone();
        return null;
      }
      AtTop();
      AtEnds();
      node := Rightmost(root, Top, shape);
    }

    lemma AtEnds()
      requires Linked()
      ensures |Before<MapNode<K>>(Top)| == 0 && |Behind<MapNode<K>>(Top)| == 0
      ensures root != null ==> Contents() != [] && Root(shape) == Some(root)
    {
    }

    lemma InNone()
      requires Linked() && root == null
      ensures Contents() == []
    {
    }

    /** The walk down the left edge of the subtree at a hole. */
    method Leftmost(top: MapNode<K>, ghost c0: Ctx<MapNode<K>>, ghost t0: Shape<MapNode<K>>) returns (p: MapNode<K>)
      requires Valid() && Plug(c0, t0) == shape && Root(t0) == Some(top)
      ensures Valid() && |Before(c0)| < |Contents()| && p == Contents()[|Before(c0)|] && p.left == null
    {
      hide Inorder, Nodes, Links, Once, Linked, Keyed, Plug, Ascending, Before, Behind;
      p := top;
      ghost var c, t := c0, t0;
      while true
        invariant Valid() && Plug(c, t) == shape && Root(t) == Some(p) && |Before(c)| == |Before(c0)|
        decreases t
      {
        At(c, t);
        Deeper(c, t);
        BelowOnce(c, t);
        Within(c, t);
        if p.left == null {
          break;
        }
        c, t := LeftOf(p, t.right, c), t.left;
        p := p.left;
      }
    }

    /** The walk down the right edge of the subtree at a hole. */
    method Rightmost(top: MapNode<K>, ghost c0: Ctx<MapNode<K>>, ghost t0: Shape<MapNode<K>>) returns (p: MapNode<K>)
      requires Valid() && Plug(c0, t0) == shape && Root(t0) == Some(top)
      ensures Valid() && |Behind(c0)| < |Contents()| && p == Contents()[|Contents()| - 1 - |Behind(c0)|]
    {
      hide Inorder, Nodes, Links, Once, Linked, Keyed, Plug, Ascending, Before, Behind;
      p := top;
      ghost var c, t := c0, t0;
      while true
        invariant Valid() && Plug(c, t) == shape && Root(t) == Some(p) && |Behind(c)| == |Behind(c0)|
        decreases t
      {
        At(c, t);
        Deeper(c, t);
        BelowOnce(c, t);
        Within(c, t);
        if p.right == null {
          break;
        }
        c, t := RightOf(t.left, p, c), t.right;
        p := p.right;
      }
    }

    /** ngx_map_next: the node behind the i-th. */
    method Next(n: MapNode<K>, ghost i: nat) returns (node: MapNode?<K>)
      requires Valid() && i < |Contents()| && Contents()[i] == n
      ensures Valid()
      ensures Opt(node) == if i + 1 < |Contents()| then Some(Contents()[i + 1]) else None
    {
      hide Inorder, Nodes, Links, Once, Linked, Keyed, Plug, Ascending, Before, Behind;
      AtTop();
      NodeAt(shape, i);
      ghost var c, t := Focus(Top, shape, n);
      At(c, t);
      Deeper(c, t);
      BelowOnce(c, t);
      Within(c, t);
      PlaceOf(c, t, i);
      if n.right != null {
        node := Leftmost(n.right, RightOf(t.left, n, c), t.right);
        return;
      }
      var p := n;
      while true
        invariant Valid() && Plug(c, t) == shape && Root(t) == Some(p)
        invariant |Before(c)| + |Inorder(t)| == i + 1
        decreases c
      {
        At(c, t);
        Climb(c, t);
        Upward(c, t);
        if p == root {
          return null;
        }
        if p.parent.left == p {
          return p.parent;
        }
        p := p.parent;
        c, t := c.up, Br(c.left, c.node, t);
      }
    }

    /** ngx_map_prev: the node before the i-th. */
    method Prev(n: MapNode<K>, ghost i: nat) returns (node: MapNode?<K>)
      requires Valid() && i < |Contents()| && Contents()[i] == n
      ensures Valid()
      ensures Opt(node) == if i > 0 then Some(Contents()[i - 1]) else None
    {
      hide Inorder, Nodes, Links, Once, Linked, Keyed, Plug, Ascending, Before, Behind;
      AtTop();
      NodeAt(shape, i);
      ghost var c, t := Focus(Top, shape, n);
      At(c, t);
      Deeper(c, t);
      BelowOnce(c, t);
      Within(c, t);
      PlaceOf(c, t, i);
      if n.left != null {
        node := Rightmost(n.left, LeftOf(n, t.right, c), t.left);
        return;
      }
      var p := n;
      while true
        invariant Valid() && Plug(c, t) == shape && Root(t) == Some(p)
        invariant |Before(c)| == i
        decreases c
      {
        At(c, t);
        Climb(c, t);
        Upward(c, t);
        if p == root {
          return null;
        }
        if p.parent.right == p {
          return p.parent;
        }
        p := p.parent;
        c, t := c.up, Br(t, c.node, c.right);
      }
    }

    /** The walk of every report over a map: each node once, in key order. */
    method Walk() returns (visited: seq<MapNode<K>>)
      requires Valid()
      ensures Valid() && visited == Contents()
    {
      hide Valid, Contents;
      visited := [];
      var node := Begin();
      while node != null
        invariant Valid() && |visited| <= |Contents()| && visited == Contents()[..|visited|]
        invariant Opt(node) == if |visited| < |Contents()| then Some(Contents()[|visited|]) else None
        decreases |Contents()| - |visited|
      {
        visited := visited + [node];
        node := Next(node, |visited| - 1);
      }
    }

    /** The same walk from the other end. */
    method WalkBack() returns (visited: seq<MapNode<K>>)
      requires Valid()
      ensures Valid() && |visited| == |Contents()|
      ensures forall i :: 0 <= i < |visited| ==> visited[i] == Contents()[|visited| - 1 - i]
    {
      hide Valid, Contents;
      visited := [];
      var node := RBegin();
      while node != null
        invariant Valid() && |visited| <= |Contents()|
        invariant forall i :: 0 <= i < |visited| ==> visited[i] == Contents()[|Contents()| - 1 - i]
        invariant Opt(node) == if |visited| < |Contents()| then Some(Contents()[|Contents()| - 1 - |visited|]) else None
        decreases |Contents()| - |visited|
      {
        visited := visited + [node];
        node := Prev(node, |Contents()| - |visited|);
      }
    }

    /** A node stands once, behind what is before its hole and its left subtree. */
    lemma PlaceOf(c: Ctx<MapNode<K>>, t: Shape<MapNode<K>>, i: nat)
      requires Built() && Plug(c, t) == shape && t.Br? && i < |Contents()| && Contents()[i] == t.node
      ensures i == |Before(c)| + |Inorder(t.left)|
    {
      InorderOfPlug(c, t);
      OnceIsDistinct(shape);
      assert Contents()[|Before(c)| + |Inorder(t.left)|] == t.node;
    }

    /** What a node sees when it looks up: it is the root, or its parent shows which child it is. */
    lemma Climb(c: Ctx<MapNode<K>>, t: Shape<MapNode<K>>)
      requires Built() && Plug(c, t) == shape && t.Br?
      ensures root == t.node <==> c.Top?
      ensures !c.Top? ==> t.node.parent == c.node
      ensures c.LeftOf? ==> c.node.left == t.node && c.node.right != t.node
      ensures c.RightOf? ==> c.node.right == t.node && c.node.left != t.node
    {
      hide Links;
      hide Inorder, Before, Behind, Ascending;
      At(c, t);
      RootOfPlug(c, t);
      LinksAtHole(c, t);
      NodesOfPlug(c, t);
    }

    // ----- turning

    /** Once the pointers are those of another tree, that is the tree. */
    ghost method Reshape(s: Shape<MapNode<K>>)
      requires Lawful(cmp) && Once(s) && Root(s) == Opt(root)
      requires forall n :: n in Nodes(s) ==> Is(n, Links(s, None)[n])
      modifies this`shape
      ensures shape == s && Built()
    {
      hide Links, Nodes, Inorder, Once;
      shape := s;
    }

    /** A left turn at `x`: the right child comes up. */
    method RotateLeft(x: MapNode<K>, ghost c: Ctx<MapNode<K>>, ghost t: Shape<MapNode<K>>)
      requires Built() && Plug(c, t) == shape && Root(t) == Some(x) && x.right != null
      modifies this`root, this`shape, Nodes(shape)`left, Nodes(shape)`right, Nodes(shape)`parent
      ensures Built() && Nodes(shape) == old(Nodes(shape)) && Contents() == old(Contents())
      ensures t.Br? && t.right.Br? && shape == Plug(c, TurnedLeft(t))
    {
      hide Linked;
      hide Links, Nodes, Inorder, Plug, Once, Around, OnceAround;
      PlanLeft(c, t);
      NodesAreAllocated(shape);
      ghost var s := Plug(c, TurnedLeft(t));
      RelinkLeft(x);
      Reshape(s);
    }

    /** The pointer changes of a left turn. */
    method RelinkLeft(x: MapNode<K>)
      requires x.right != null && x.right != x && x.right.left != x && x.right.left != x.right
      requires root == x <==> x.parent == null
      requires x.parent != null ==> x.parent != x && x.parent != x.right && x.parent != x.right.left
      requires x.parent != null ==> x.parent.left == x || x.parent.right == x
      modifies this`root, x`right, x`parent, x.right`left, x.right`parent, Ref(x.right.left)`parent, Ref(x.parent)`left,
               Ref(x.parent)`right
      ensures x.right == old(x.right.left) && x.parent == old(x.right)
      ensures x.parent.left == x && x.parent.parent == old(x.parent)
      ensures old(x.right.left) != null ==> old(x.right.left).parent == x
      ensures root == if old(root) == x then old(x.right) else old(root)
      ensures var p := old(x.parent);
              p != null ==>
                && p.left == (if old(x.parent.left) == x then old(x.right) else old(x.parent.left))
                && p.right == (if old(x.parent.left) == x then old(x.parent.right) else old(x.right))
    {
      var y := x.right;
      x.right := y.left;
      if y.left != null {
        y.left.parent := x;
      }
      y.parent := x.parent;
      if x == root {
        root := y;
      } else if x == x.parent.left {
        x.parent.left := y;
      } else {
        x.parent.right := y;
      }
      y.left := x;
      x.parent := y;
    }

    /** The fields of a node, before a turn, against its links after it. */
    lemma PlanLeft(c: Ctx<MapNode<K>>, t: Shape<MapNode<K>>)
      requires Built() && Plug(c, t) == shape && t.Br? && t.node.right != null
      ensures t.right.Br? && t.right.node == t.node.right
      ensures var x, y, s := t.node, t.right.node, Plug(c, TurnedLeft(t));
              var now := Links(s, None);
              && x != y && now.Keys == Nodes(s) == Nodes(shape) && Once(s) && Inorder(s) == Inorder(shape)
              && Root(s) == (if root == x then Some(y) else Opt(root))
              && Has(now, x, x.left, y.left, y) && Has(now, y, x, y.right, x.parent)
              && (y.left != null ==> y.left != x && y.left != y && y.left != x.parent)
              && (y.left != null ==> Has(now, y.left, y.left.left, y.left.right, x))
              && (root == x <==> x.parent == null)
              && (x.parent != null ==> x.parent != x && x.parent != y && (x.parent.left == x || x.parent.right == x))
              && (x.parent != null && x.parent.left == x ==> Has(now, x.parent, y, x.parent.right, x.parent.parent))
              && (x.parent != null && x.parent.left != x ==> Has(now, x.parent, x.parent.left, y, x.parent.parent))
              && (forall n :: n in now && n != x && n != y && n != y.left && n != x.parent ==> Is(n, now[n]))
    {
      hide Links, Nodes, Inorder, Plug, Before, Behind, Once, Around, OnceAround;
      Deeper(c, t);
      At(c, t);
      Climb(c, t);
      At(RightOf(t.left, t.node, c), t.right);
      LeftTurnInPlace(c, t);
      TurnAndRest(c, t, TurnedLeft(t));
    }

    /** A right turn at `x`: the left child comes up. */
    method RotateRight(x: MapNode<K>, ghost c: Ctx<MapNode<K>>, ghost t: Shape<MapNode<K>>)
      requires Built() && Plug(c, t) == shape && Root(t) == Some(x) && x.left != null
      modifies this`root, this`shape, Nodes(shape)`right, Nodes(shape)`left, Nodes(shape)`parent
      ensures Built() && Nodes(shape) == old(Nodes(shape)) && Contents() == old(Contents())
      ensures t.Br? && t.left.Br? && shape == Plug(c, TurnedRight(t))
    {
      hide Linked;
      hide Links, Nodes, Inorder, Plug, Once, Around, OnceAround;
      PlanRight(c, t);
      NodesAreAllocated(shape);
      ghost var s := Plug(c, TurnedRight(t));
      RelinkRight(x);
      Reshape(s);
    }

    /** The pointer changes of a right turn. */
    method RelinkRight(x: MapNode<K>)
      requires x.left != null && x.left != x && x.left.right != x && x.left.right != x.left
      requires root == x <==> x.parent == null
      requires x.parent != null ==> x.parent != x && x.parent != x.left && x.parent != x.left.right
      requires x.parent != null ==> x.parent.right == x || x.parent.left == x
      modifies this`root, x`left, x`parent, x.left`right, x.left`parent, Ref(x.left.right)`parent, Ref(x.parent)`right,
               Ref(x.parent)`left
      ensures x.left == old(x.left.right) && x.parent == old(x.left)
      ensures x.parent.right == x && x.parent.parent == old(x.parent)
      ensures old(x.left.right) != null ==> old(x.left.right).parent == x
      ensures root == if old(root) == x then old(x.left) else old(root)
      ensures var p := old(x.parent);
              p != null ==>
                && p.right == (if old(x.parent.right) == x then old(x.left) else old(x.parent.right))
                && p.left == (if old(x.parent.right) == x then old(x.parent.left) else old(x.left))
    {
      var y := x.left;
      x.left := y.right;
      if y.right != null {
        y.right.parent := x;
      }
      y.parent := x.parent;
      if x == root {
        root := y;
      } else if x == x.parent.right {
        x.parent.right := y;
      } else {
        x.parent.left := y;
      }
      y.right := x;
      x.parent := y;
    }

    /** The fields of a node, before a turn, against its links after it. */
    lemma PlanRight(c: Ctx<MapNode<K>>, t: Shape<MapNode<K>>)
      requires Built() && Plug(c, t) == shape && t.Br? && t.node.left != null
      ensures t.left.Br? && t.left.node == t.node.left
      ensures var x, y, s := t.node, t.left.node, Plug(c, TurnedRight(t));
              var now := Links(s, None);
              && x != y && now.Keys == Nodes(s) == Nodes(shape) && Once(s) && Inorder(s) == Inorder(shape)
              && Root(s) == (if root == x then Some(y) else Opt(root))
              && Has(now, x, y.right, x.right, y) && Has(now, y, y.left, x, x.parent)
              && (y.right != null ==> y.right != x && y.right != y && y.right != x.parent)
              && (y.right != null ==> Has(now, y.right, y.right.left, y.right.right, x))
              && (root == x <==> x.parent == null)
              && (x.parent != null ==> x.parent != x && x.parent != y && (x.parent.right == x || x.parent.left == x))
              && (x.parent != null && x.parent.right == x ==> Has(now, x.parent, x.parent.left, y, x.parent.parent))
              && (x.parent != null && x.parent.right != x ==> Has(now, x.parent, y, x.parent.right, x.parent.parent))
              && (forall n :: n in now && n != x && n != y && n != y.right && n != x.parent ==> Is(n, now[n]))
    {
      hide Links, Nodes, Inorder, Plug, Before, Behind, Once, Around, OnceAround;
      Deeper(c, t);
      At(c, t);
      Climb(c, t);
      At(LeftOf(t.node, t.right, c), t.left);
      RightTurnInPlace(c, t);
      TurnAndRest(c, t, TurnedRight(t));
    }

    lemma Deeper(c: Ctx<MapNode<K>>, t: Shape<MapNode<K>>)
      requires t.Br?
      ensures Plug(LeftOf(t.node, t.right, c), t.left) == Plug(c, t)
      ensures Plug(RightOf(t.left, t.node, c), t.right) == Plug(c, t)
    {
    }

    lemma TurnAndRest(c: Ctx<MapNode<K>>, t: Shape<MapNode<K>>, t': Shape<MapNode<K>>)
      requires t.Br? && t'.Br? && ((t.right.Br? && t' == TurnedLeft(t)) || (t.left.Br? && t' == TurnedRight(t)))
      ensures Nodes(Plug(c, t')) == Nodes(Plug(c, t)) && Inorder(Plug(c, t')) == Inorder(Plug(c, t))
      ensures !c.Top? ==> Root(Plug(c, t')) == Root(Plug(c, t))
      ensures c.Top? ==> Root(Plug(c, t')) == Root(t')
    {
      if t.right.Br? && t' == TurnedLeft(t) {
        TurnKeepsOrder(t);
        TurnKeepsNodes(t);
      } else {
        TurnKeepsOrder(t');
        TurnKeepsNodes(t');
      }
      InorderOfPlug(c, t);
      InorderOfPlug(c, t');
      NodesOfPlug(c, t);
      NodesOfPlug(c, t');
      if !c.Top? {
        RootStays(c, t, t');
      }
    }

    /** Rebalancing: any turns, in any order. A turn that is not possible where its path ends is skipped. */
    method Rebalance(turns: seq<Turn>)
      requires Built()
      modifies this`root, this`shape, Nodes(shape)`left, Nodes(shape)`right, Nodes(shape)`parent
      ensures Built() && Nodes(shape) == old(Nodes(shape)) && Contents() == old(Contents())
      ensures shape == AllTurned(old(shape), turns)
    {
      hide Turned, Linked;
      for i := 0 to |turns|
        invariant Built() && Nodes(shape) == old(Nodes(shape)) && Contents() == old(Contents())
        invariant AllTurned(shape, turns[i..]) == AllTurned(old(shape), turns)
      {
        assert turns[i..][1..] == turns[i + 1..];
        TurnAt(turns[i]);
      }
    }

    method TurnAt(turn: Turn)
      requires Built()
      modifies this`root, this`shape, Nodes(shape)`left, Nodes(shape)`right, Nodes(shape)`parent
      ensures Built() && Nodes(shape) == old(Nodes(shape)) && Contents() == old(Contents())
      ensures shape == Turned(old(shape), turn.path, turn.left)
    {
      hide Links, Nodes, Inorder, Plug, Once, Around, OnceAround, Linked;
      var p; ghost var c, t;
      p, c, t := Follow(turn.path, turn.left);
      if p == null {
        return;
      }
      At(c, t);
      if turn.left && p.right != null {
        RotateLeft(p, c, t);
      } else if !turn.left && p.left != null {
        RotateRight(p, c, t);
      }
    }

    /** The node at the end of a path, if the path stays in the tree. */
    method Follow(path: seq<bool>, ghost left: bool) returns (p: MapNode?<K>, ghost c: Ctx<MapNode<K>>,
                                                              ghost t: Shape<MapNode<K>>)
      requires Built()
      ensures Built() && Plug(c, t) == shape && (p != null ==> Opt(p) == Root(t))
      ensures Turned(shape, path, left) == if p == null then shape else Plug(c, Turned(t, [], left))
    {
      hide Links, Nodes, Inorder, Plug, Once, Around, OnceAround, Linked;
      p, c, t := root, Top, shape;
      AtTop();
      RootIs();
      for i := 0 to |path|
        invariant Built() && Plug(c, t) == shape && Opt(p) == Root(t)
        invariant Turned(shape, path, left) == Plug(c, Turned(t, path[i..], left))
      {
        if p == null {
          return;
        }
        At(c, t);
        Deeper(c, t);
        assert path[i..][1..] == path[i + 1..];
        TurnBelow(c, t, path[i + 1..], left);
        if path[i] {
          c, t := LeftOf(p, t.right, c), t.left;
          p := p.left;
        } else {
          c, t := RightOf(t.left, p, c), t.right;
          p := p.right;
        }
      }
    }

    lemma RootIs()
      requires Built()
      ensures Opt(root) == Root(shape) && Plug(Top, shape) == shape
      ensures forall t: Shape<MapNode<K>> :: Plug(Top, t) == t
    {
    }

    lemma TurnBelow(c: Ctx<MapNode<K>>, t: Shape<MapNode<K>>, path: seq<bool>, left: bool)
      requires t.Br?
      ensures Plug(c, Turned(t, [true] + path, left)) == Plug(LeftOf(t.node, t.right, c), Turned(t.left, path, left))
      ensures Plug(c, Turned(t, [false] + path, left)) == Plug(RightOf(t.left, t.node, c), Turned(t.right, path, left))
    {
      assert ([true] + path)[1..] == path && ([false] + path)[1..] == path;
    }

    lemma AtTop()
      ensures Plug(Top, shape) == shape
    {
    }

    // ----- adding, removing and exchanging a node

    /** `node` takes the empty place under `temp`, or at the root. */
    method Attach(temp: MapNode?<K>, goesLeft: bool, node: MapNode<K>, ghost c: Ctx<MapNode<K>>)
      requires Built() && Plug(c, Leaf) == shape && node !in Nodes(shape)
      requires Parent(c) == Opt(temp) && (goesLeft <==> c.LeftOf?)
      modifies this`root, this`shape, node`left, node`right, node`parent, Ref(temp)`left, Ref(temp)`right
      ensures Built() && shape == Plug(c, Br(Leaf, node, Leaf)) && Nodes(shape) == old(Nodes(shape)) + {node}
    {
      hide Links, Nodes, Inorder, Plug, Once, Around, OnceAround;
      PlanAttach(c, node);
      NodesAreAllocated(shape);
      ghost var s := Plug(c, Br(Leaf, node, Leaf));
      RelinkUnder(temp, goesLeft, node);
      Reshape(s);
    }

    /** The pointer changes when `node` takes an empty place under `temp`. */
    method RelinkUnder(temp: MapNode?<K>, goesLeft: bool, node: MapNode<K>)
      requires temp != node
      modifies this`root, node`left, node`right, node`parent, Ref(temp)`left, Ref(temp)`right
      ensures node.parent == temp && node.left == null && node.right == null
      ensures root == if temp == null then node else old(root)
      ensures temp != null ==> temp.left == (if goesLeft then node else old(temp.left))
      ensures temp != null ==> temp.right == (if goesLeft then old(temp.right) else node)
    {
      node.parent, node.left, node.right := temp, null, null;
      if temp == null {
        root := node;
      } else if goesLeft {
        temp.left := node;
      } else {
        temp.right := node;
      }
    }

    lemma PlanAttach(c: Ctx<MapNode<K>>, node: MapNode<K>)
      requires Built() && Plug(c, Leaf) == shape && node !in Nodes(shape)
      ensures var s := Plug(c, Br(Leaf, node, Leaf));
              var now := Links(s, None);
              && now.Keys == Nodes(s) == Nodes(shape) + {node} && Once(s)
              && Root(s) == (if c.Top? then Some(node) else Opt(root))
              && now[node] == Link(None, None, Parent(c))
              && (!c.Top? ==> c.node in Nodes(shape) && c.node != node)
              && (c.LeftOf? ==> Has(now, c.node, node, c.node.right, c.node.parent))
              && (c.RightOf? ==> Has(now, c.node, c.node.left, node, c.node.parent))
              && (forall n :: n in now && n != node && Parent(c) != Some(n) ==> Is(n, now[n]))
    {
      hide Links, Nodes, Inorder, Plug, Once, Around, OnceAround;
      Single(node, Parent(c));
      NodesOfPlug(c, Leaf);
      NodesOfPlug(c, Br(Leaf, node, Leaf));
      AttachInPlace(c, node);
      AtTop();
      if c.Top? {
        PlugTop(Br(Leaf, node, Leaf));
      } else {
        RootStays(c, Leaf, Br(Leaf, node, Leaf));
      }
    }

    lemma PlugTop(t: Shape<MapNode<K>>)
      ensures Plug(Top, t) == t
    {
    }

    /** A node with a child missing is taken out; its other child takes its place. */
    method Splice(node: MapNode<K>, ghost c: Ctx<MapNode<K>>, ghost t: Shape<MapNode<K>>)
      requires Built() && Plug(c, t) == shape && Root(t) == Some(node) && (node.left == null || node.right == null)
      modifies this`root, this`shape, Nodes(shape)`left, Nodes(shape)`right, Nodes(shape)`parent
      ensures Built() && (t.left.Leaf? || t.right.Leaf?) && shape == Plug(c, Only(t))
      ensures Nodes(shape) == old(Nodes(shape)) - {node}
    {
      hide Linked, Lawful;
      hide Links, Nodes, Inorder, Plug, Once, Around, OnceAround, Contents, Only;
      PlanSplice(c, t);
      NodesAreAllocated(shape);
      ghost var s := Plug(c, Only(t));
      RelinkPast(node, if node.left == null then node.right else node.left);
      Reshape(s);
    }

    /** The pointer changes when `temp` takes the place of its parent. */
    method RelinkPast(node: MapNode<K>, temp: MapNode?<K>)
      requires temp != null ==> temp != node && temp != node.parent
      requires root == node <==> node.parent == null
      requires node.parent != null ==> node.parent != node && (node.parent.left == node || node.parent.right == node)
      modifies this`root, Ref(temp)`parent, Ref(node.parent)`left, Ref(node.parent)`right
      ensures root == if old(root) == node then temp else old(root)
      ensures temp != null ==> temp.parent == old(node.parent)
      ensures old(node.parent) != null ==>
                && old(node.parent).left == (if old(node.parent.left) == node then temp else old(node.parent.left))
                && old(node.parent).right == (if old(node.parent.left) == node then old(node.parent.right) else temp)
    {
      if node == root {
        root := temp;
      } else if node == node.parent.left {
        node.parent.left := temp;
      } else {
        node.parent.right := temp;
      }
      if temp != null {
        temp.parent := node.parent;
      }
    }

    lemma PlanSplice(c: Ctx<MapNode<K>>, t: Shape<MapNode<K>>)
      requires Built() && Plug(c, t) == shape && t.Br? && (t.node.left == null || t.node.right == null)
      ensures t.left.Leaf? || t.right.Leaf?
      ensures var x, s := t.node, Plug(c, Only(t));
              var now, temp := Links(s, None), if x.left == null then x.right else x.left;
              && now.Keys == Nodes(s) == Nodes(shape) - {x} && x in Nodes(shape) && Once(s)
              && Root(s) == (if root == x then Opt(temp) else Opt(root))
              && (temp != null ==> temp != x && temp != x.parent && Has(now, temp, temp.left, temp.right, x.parent))
              && (root == x <==> x.parent == null)
              && (x.parent != null ==> x.parent != x && (x.parent.left == x || x.parent.right == x))
              && (x.parent != null && x.parent.left == x ==> Has(now, x.parent, temp, x.parent.right, x.parent.parent))
              && (x.parent != null && x.parent.left != x ==> Has(now, x.parent, x.parent.left, temp, x.parent.parent))
              && (forall n :: n in now && n != temp && n != x.parent ==> Is(n, now[n]))
    {
      hide Links, Nodes, Inorder, Plug, Before, Behind, Once, Around, OnceAround;
      At(c, t);
      Climb(c, t);
      SpliceInPlace(c, t);
      if c.Top? {
        PlugTop(Only(t));
      } else {
        RootStays(c, t, Only(t));
      }
    }

    /** `m` takes the place of `node`. */
    method Supplant(node: MapNode<K>, m: MapNode<K>, ghost c: Ctx<MapNode<K>>, ghost t: Shape<MapNode<K>>)
      requires Built() && Plug(c, t) == shape && Root(t) == Some(node)
      requires m !in Nodes(shape)
      modifies this`root, this`shape, m`left, m`right, m`parent
      modifies Nodes(shape)`left, Nodes(shape)`right, Nodes(shape)`parent
      ensures Built() && shape == Plug(c, Br(t.left, m, t.right)) && Nodes(shape) == old(Nodes(shape)) - {node} + {m}
    {
      hide Linked;
      hide Links, Nodes, Inorder, Plug, Once, Around, OnceAround, Contents;
      PlanSupplant(c, t, m);
      NodesAreAllocated(shape);
      ghost var s := Plug(c, Br(t.left, m, t.right));
      RelinkTo(node, m);
      Reshape(s);
    }

    /** The pointer changes when `m` takes the place of `node`. */
    method RelinkTo(node: MapNode<K>, m: MapNode<K>)
      requires m != node && m != node.left && m != node.right && m != node.parent
      requires root == node <==> node.parent == null
      requires node.left != null ==> node.left != node && node.left != node.right && node.left != node.parent
      requires node.right != null ==> node.right != node && node.right != node.parent
      requires node.parent != null ==> node.parent.left == node || node.parent.right == node
      modifies this`root, m`left, m`right, m`parent
      modifies Ref(node.left)`parent, Ref(node.right)`parent, Ref(node.parent)`left, Ref(node.parent)`right
      ensures m.left == old(node.left) && m.right == old(node.right) && m.parent == old(node.parent)
      ensures m.left != null ==> m.left.parent == m
      ensures m.right != null ==> m.right.parent == m
      ensures root == if old(root) == node then m else old(root)
      ensures m.parent != null ==>
                && m.parent.left == (if old(node.parent.left) == node then m else old(node.parent.left))
                && m.parent.right == (if old(node.parent.left) == node then old(node.parent.right) else m)
    {
      m.left, m.right, m.parent := node.left, node.right, node.parent;
      if node == root {
        root := m;
      } else if node == node.parent.left {
        node.parent.left := m;
      } else {
        node.parent.right := m;
      }
      if m.left != null {
        m.left.parent := m;
      }
      if m.right != null {
        m.right.parent := m;
      }
    }

    lemma PlanSupplant(c: Ctx<MapNode<K>>, t: Shape<MapNode<K>>, m: MapNode<K>)
      requires Built() && Plug(c, t) == shape && t.Br? && m !in Nodes(shape)
      ensures var x, s := t.node, Plug(c, Br(t.left, m, t.right));
              var now := Links(s, None);
              && now.Keys == Nodes(s) == Nodes(shape) - {x} + {m} && x in Nodes(shape) && Once(s)
              && Root(s) == (if root == x then Some(m) else Opt(root))
              && Has(now, m, x.left, x.right, x.parent)
              && m != x.left && m != x.right && m != x.parent
              && (x.left != null ==> x.left != x && x.left != x.right && x.left != x.parent)
              && (x.left != null ==> Has(now, x.left, x.left.left, x.left.right, m))
              && (x.right != null ==> x.right != x && x.right != x.parent)
              && (x.right != null ==> Has(now, x.right, x.right.left, x.right.right, m))
              && (root == x <==> x.parent == null)
              && (x.parent != null ==> x.parent != x && (x.parent.left == x || x.parent.right == x))
              && (x.parent != null && x.parent.left == x ==> Has(now, x.parent, m, x.parent.right, x.parent.parent))
              && (x.parent != null && x.parent.left != x ==> Has(now, x.parent, x.parent.left, m, x.parent.parent))
              && (forall n :: n in now && n != m && n != x.left && n != x.right && n != x.parent ==> Is(n, now[n]))
    {
      hide Links, Nodes, Inorder, Plug, Before, Behind, Around, OnceAround;
      At(c, t);
      Climb(c, t);
      NodesOfPlug(c, t);
      SupplantInPlace(c, t, m);
      RootsDiffer(t);
      if c.Top? {
        PlugTop(Br(t.left, m, t.right));
      } else {
        RootStays(c, t, Br(t.left, m, t.right));
      }
    }

    lemma RootsDiffer(t: Shape<MapNode<K>>)
      requires t.Br? && Once(t)
      ensures t.left.Br? ==> Root(t.left) != Root(t.right)
    {
    }

    // ----- deleting

    /** `Splice` for a node known by its place in the order. */
    method SpliceAt(node: MapNode<K>, ghost i: nat)
      requires Built() && i < |Contents()| && Contents()[i] == node && (node.left == null || node.right == null)
      modifies this`root, this`shape, Nodes(shape)`left, Nodes(shape)`right, Nodes(shape)`parent
      ensures Built() && Nodes(shape) == old(Nodes(shape)) - {node}
      ensures Contents() == old(Contents())[..i] + old(Contents())[i + 1..]
    {
      hide Inorder, Nodes, Links, Plug, Once, Before, Only, Linked, Keyed;
      NodeAt(shape, i);
      AtTop();
      ghost var c, t := Focus(Top, shape, node);
      PlaceOf(c, t, i);
      Splice(node, c, t);
      SpliceInOrder(c, t);
    }

    /** `Supplant` for a node known by its place in the order. */
    method SupplantAt(node: MapNode<K>, m: MapNode<K>, ghost i: nat)
      requires Built() && i < |Contents()| && Contents()[i] == node
      requires m !in Nodes(shape)
      modifies this`root, this`shape, m`left, m`right, m`parent
      modifies Nodes(shape)`left, Nodes(shape)`right, Nodes(shape)`parent
      ensures Built() && Nodes(shape) == old(Nodes(shape)) - {node} + {m}
      ensures Contents() == old(Contents())[i := m]
    {
      hide Inorder, Nodes, Links, Plug, Once, Before;
      NodeAt(shape, i);
      AtTop();
      ghost var c, t := Focus(Top, shape, node);
      PlaceOf(c, t, i);
      Supplant(node, m, c, t);
      SupplantInOrder(c, t, m);
    }

    /** The node behind a node with a right child. */
    method Heir(node: MapNode<K>, ghost i: nat) returns (subst: MapNode<K>)
      requires Valid() && i < |Contents()| && Contents()[i] == node && node.right != null
      ensures Valid() && i + 1 < |Contents()| && subst == Contents()[i + 1] && subst.left == null
    {
      hide Inorder, Nodes, Links, Plug, Once, Linked, Keyed;
      NodeAt(shape, i);
      AtTop();
      ghost var c, t := Focus(Top, shape, node);
      At(c, t);
      Deeper(c, t);
      PlaceOf(c, t, i);
      InRight(c, t);
      subst := Leftmost(node.right, RightOf(t.left, node, c), t.right);
    }

    lemma InRight(c: Ctx<MapNode<K>>, t: Shape<MapNode<K>>)
      requires t.Br?
      ensures |Before(RightOf(t.left, t.node, c))| == |Before(c)| + |Inorder(t.left)| + 1
    {
    }

    lemma AllInNodes()
      ensures forall i :: 0 <= i < |Contents()| ==> Contents()[i] in Nodes(shape)
      ensures forall n :: n in Nodes(shape) ==> n in Contents()
    {
      forall i | 0 <= i < |Contents()| ensures Contents()[i] in Nodes(shape) {
        NodeAt(shape, i);
      }
      forall n | n in Nodes(shape) ensures n in Contents() {
        InorderHasNode(shape, n);
      }
    }

    lemma AllDistinct(i: nat, j: nat)
      requires Linked() && i < j < |Contents()|
      ensures Contents()[i] != Contents()[j]
    {
      OnceIsDistinct(shape);
    }

    /** ngx_rbtree_delete: the i-th node is taken out, and its links and its key are cleared. */
    method Remove(node: MapNode<K>, ghost i: nat, turns: seq<Turn>)
      requires Valid() && i < |Contents()| && Contents()[i] == node
      modifies this`root, this`shape, node`key, Nodes(shape)`left, Nodes(shape)`right, Nodes(shape)`parent
      ensures Built() && Keyed() && Nodes(shape) == old(Nodes(shape)) - {node}
      ensures Contents() == old(Contents())[..i] + old(Contents())[i + 1..]
      ensures Cleared(node)
    {
      hide Inorder, Nodes, Links, Once, Linked, Contents;
      AllInNodes();
      NodesAreAllocated(shape);
      TakeOut(node, i);
      assert Keyed();
      Clear(node);
      Rebalance(turns);
    }

    ghost predicate Cleared(node: MapNode<K>)
      reads node
    {
      node.key == 0 && node.left == null && node.right == null && node.parent == null
    }

    method Clear(node: MapNode<K>)
      requires Built() && Keyed() && node !in Nodes(shape)
      modifies node`key, node`left, node`right, node`parent
      ensures Built() && Keyed() && Cleared(node)
    {
      hide Links, Nodes, Inorder;
      node.left, node.right, node.parent := null, null, null;
      node.key := 0;
    }

    /** The links of the others, when the i-th node goes. */
    method TakeOut(node: MapNode<K>, ghost i: nat)
      requires Valid() && i < |Contents()| && Contents()[i] == node
      modifies this`root, this`shape, Nodes(shape)`left, Nodes(shape)`right, Nodes(shape)`parent
      ensures Built() && Keyed() && Nodes(shape) == old(Nodes(shape)) - {node}
      ensures Contents() == old(Contents())[..i] + old(Contents())[i + 1..]
    {
      hide Inorder, Nodes, Links, Once, Linked, Contents;
      ghost var s, ns := Contents(), Nodes(shape);
      AllInNodes();
      NodesAreAllocated(shape);
      if node.left == null || node.right == null {
        SpliceAt(node, i);
      } else {
        var subst := Heir(node, i);
        AllDistinct(i, i + 1);
        SpliceAt(subst, i + 1);
        SupplantAt(node, subst, i);
        TwoSteps(s, i);
        assert Nodes(shape) == ns - {node};
      }
    }

    lemma KeyOf(n: MapNode<K>)
      requires Keyed() && n in Nodes(shape)
      ensures n.key == hash(n.rawKey)
    {
    }

    lemma TwoSteps(s: seq<MapNode<K>>, i: nat)
      requires i + 1 < |s|
      ensures (s[..i + 1] + s[i + 2..])[i := s[i + 1]] == s[..i] + s[i + 1..]
    {
    }

    /** In a sequence of nodes, `n` is what `key` is mapped to. */
    ghost predicate Holds(s: seq<MapNode<K>>, key: K, n: MapNode<K>)
      reads n`rawKey
    {
      n in s && SameKey(key, n.rawKey)
    }

    /** A key is mapped to one node at most, and that stands at one place. */
    lemma HoldsOne(s: seq<MapNode<K>>, key: K, i: nat, j: nat)
      requires Lawful(cmp) && Ascending(s, hash, cmp) && i < |s| && j < |s|
      requires SameKey(key, s[i].rawKey) && SameKey(key, s[j].rawKey)
      ensures i == j
    {
      LessIsOrder(hash, cmp, s[i].rawKey, key, s[j].rawKey);
      LessIsOrder(hash, cmp, s[j].rawKey, key, s[i].rawKey);
      LessIsOrder(hash, cmp, key, s[i].rawKey, key);
      LessIsOrder(hash, cmp, key, s[j].rawKey, key);
      LessIsOrder(hash, cmp, s[i].rawKey, s[j].rawKey, s[j].rawKey);
      LessIsOrder(hash, cmp, s[j].rawKey, s[i].rawKey, s[i].rawKey);
    }

    lemma AscendingWithout(s: seq<MapNode<K>>, i: nat)
      requires Ascending(s, hash, cmp) && i < |s|
      ensures Ascending(s[..i] + s[i + 1..], hash, cmp)
    {
    }

    lemma MemberWithout(s: seq<MapNode<K>>, i: nat, n: MapNode<K>)
      requires i < |s| && Distinct(s)
      ensures n in s[..i] + s[i + 1..] <==> n in s && n != s[i]
    {
      assert s == s[..i] + [s[i]] + s[i + 1..];
    }

    lemma AscendingIsDistinct(s: seq<MapNode<K>>)
      requires Lawful(cmp) && Ascending(s, hash, cmp)
      ensures Distinct(s)
    {
      forall i, j | 0 <= i < j < |s| ensures s[i] != s[j] {
        LessIsOrder(hash, cmp, s[i].rawKey, s[j].rawKey, s[j].rawKey);
      }
    }

    /** Without its i-th node a sequence maps every key as before, but for that node's own. */
    lemma HoldsWithout(s: seq<MapNode<K>>, key: K, i: nat)
      requires Lawful(cmp) && Ascending(s, hash, cmp) && i < |s| && SameKey(key, s[i].rawKey)
      ensures forall k, n :: Holds(s[..i] + s[i + 1..], k, n) <==> Holds(s, k, n) && !SameKey(k, key)
    {
      hide Ascending, Lawful, Distinct;
      AscendingIsDistinct(s);
      forall k, n ensures Holds(s[..i] + s[i + 1..], k, n) <==> Holds(s, k, n) && !SameKey(k, key) {
        MemberWithout(s, i, n);
        if Holds(s, k, n) {
          var j: nat :| j < |s| && s[j] == n;
          OwnKey(s, k, key, i, j);
        }
      }
    }

    lemma OwnKey(s: seq<MapNode<K>>, k: K, key: K, i: nat, j: nat)
      requires Lawful(cmp) && Ascending(s, hash, cmp) && i < |s| && j < |s|
      requires SameKey(key, s[i].rawKey) && SameKey(k, s[j].rawKey)
      ensures SameKey(k, key) <==> s[j] == s[i]
    {
      hide Ascending, Lawful;
      LessIsOrder(hash, cmp, k, key, s[i].rawKey);
      LessIsOrder(hash, cmp, key, s[i].rawKey, key);
      LessIsOrder(hash, cmp, k, s[i].rawKey, key);
      if SameKey(k, key) {
        HoldsOne(s, k, i, j);
      }
    }

    /** ngx_map_delete: exactly one key is taken out, if it is there. */
    method Delete(key: K, turns: seq<Turn>)
      requires Valid()
      modifies this`root, this`shape, Nodes(shape)`key, Nodes(shape)`left, Nodes(shape)`right, Nodes(shape)`parent
      ensures Valid() && Nodes(shape) <= old(Nodes(shape))
      ensures forall n :: n in old(Contents()) && n !in Contents() ==> Cleared(n)
      ensures forall k, n :: Holds(Contents(), k, n) <==> Holds(old(Contents()), k, n) && !SameKey(k, key)
      ensures forall i: nat | i < |old(Contents())| && SameKey(key, old(Contents())[i].rawKey) ::
                Contents() == old(Contents())[..i] + old(Contents())[i + 1..]
      ensures (forall n :: n in old(Contents()) ==> !SameKey(key, n.rawKey)) ==> Contents() == old(Contents())
    {
      hide Inorder, Nodes, Links, Once, Linked, Keyed, Ascending;
      ghost var s := Contents();
      AllInNodes();
      NodesAreAllocated(shape);
      var node := Find(key);
      if node != null {
        ghost var i: nat :| i < |s| && s[i] == node;
        Remove(node, i, turns);
        AscendingWithout(s, i);
        HoldsWithout(s, key, i);
        forall j: nat | j < |s| && SameKey(key, s[j].rawKey) ensures j == i {
          HoldsOne(s, key, i, j);
        }
      } else {
        HoldsNone(s, key);
      }
    }

    lemma HoldsNone(s: seq<MapNode<K>>, key: K)
      requires Lawful(cmp) && forall n :: n in s ==> !SameKey(key, n.rawKey)
      ensures forall k, n :: Holds(s, k, n) ==> !SameKey(k, key)
    {
      forall k, n | Holds(s, k, n) ensures !SameKey(k, key) {
        LessIsOrder(hash, cmp, k, key, n.rawKey);
        LessIsOrder(hash, cmp, key, k, n.rawKey);
      }
    }

    // ----- inserting

    /** rbtree_insert_value: down to the place of the node's key, which is taken when it is empty. */
    method InsertValue(node: MapNode<K>) returns (done: bool, ghost i: nat)
      requires Valid() && root != null && node !in Contents()
      modifies this`root, this`shape, node`left, node`right, node`parent, Nodes(shape)`left, Nodes(shape)`right
      ensures Built()
      ensures node.key == hash(node.rawKey) ==>
                Valid() && (done <==> forall n :: n in old(Contents()) ==> !SameKey(node.rawKey, n.rawKey))
      ensures done ==> i <= |old(Contents())| && Contents() == old(Contents())[..i] + [node] + old(Contents())[i..]
      ensures done ==> Nodes(shape) == old(Nodes(shape)) + {node}
      ensures !done ==> Valid() && Contents() == old(Contents()) && Nodes(shape) == old(Nodes(shape))
    {
      hide Links, Nodes, Inorder, Plug, Once, Around, OnceAround, Linked, Keyed, Before, Behind, Ascending, Narrowed,
        SameKey;
      var temp, goesLeft; ghost var c;
      temp, goesLeft, c := Descend(node);
      i := |Before(c)|;
      if temp == null {
        return false, 0;
      }
      AllInNodes();
      NodesAreAllocated(shape);
      AttachInOrder(c, node);
      if node.key == hash(node.rawKey) {
        NotFound(c, node.rawKey);
        AscendingWith(c, node);
      }
      AttachKeyed(temp, goesLeft, node, c);
      done := true;
    }

    /** `Attach`, and what it does to the stored keys. */
    method AttachKeyed(temp: MapNode?<K>, goesLeft: bool, node: MapNode<K>, ghost c: Ctx<MapNode<K>>)
      requires Built() && Keyed() && Plug(c, Leaf) == shape && node !in Nodes(shape)
      requires Parent(c) == Opt(temp) && (goesLeft <==> c.LeftOf?) && (temp != null ==> temp in Nodes(shape))
      modifies this`root, this`shape, node`left, node`right, node`parent, Ref(temp)`left, Ref(temp)`right
      ensures Built() && shape == Plug(c, Br(Leaf, node, Leaf)) && Nodes(shape) == old(Nodes(shape)) + {node}
      ensures Keyed() <==> node.key == hash(node.rawKey)
    {
      hide Links, Nodes, Inorder, Plug, Once, Around, OnceAround, Linked;
      NodesAreAllocated(shape);
      Attach(temp, goesLeft, node, c);
    }

    /** The walk of rbtree_insert_value; `temp` is null when the key is there already. */
    method Descend(node: MapNode<K>) returns (temp: MapNode?<K>, goesLeft: bool, ghost c: Ctx<MapNode<K>>)
      requires Valid() && root != null
      ensures Valid()
      ensures temp == null && node.key == hash(node.rawKey) ==>
              exists n :: n in Contents() && SameKey(node.rawKey, n.rawKey)
      ensures temp != null && node.key == hash(node.rawKey) ==> Narrowed(c, node.rawKey)
      ensures temp != null ==>
                && temp in Nodes(shape) && Plug(c, Leaf) == shape
                && Parent(c) == Some(temp) && (goesLeft <==> c.LeftOf?)
    {
      hide Links, Nodes, Inorder, Plug, Before, Behind, Once, Around, OnceAround, Linked, Keyed;
      var key := node.rawKey;
      AtRoot(key);
      temp, goesLeft, c := root, false, Top;
      ghost var t, told := shape, node.key == hash(key);
      while true
        invariant Valid() && temp != null && Opt(temp) == Root(t) && Plug(c, t) == shape && (told ==> Narrowed(c, key))
        decreases t
      {
        At(c, t);
        Deeper(c, t);
        KeyOf(temp);
        var r := if node.key < temp.key then -1 else if node.key > temp.key then 1 else cmp(key, temp.rawKey);
        LessIsOrder(hash, cmp, key, temp.rawKey, key);
        var p;
        if r == -1 {
          goesLeft := true;
          if told {
            NarrowLeft(c, t, key);
          }
          c, t := LeftOf(temp, t.right, c), t.left;
          p := temp.left;
        } else if r == 1 {
          goesLeft := false;
          if told {
            NarrowRight(c, t, key);
          }
          c, t := RightOf(t.left, temp, c), t.right;
          p := temp.right;
        } else {
          temp := null;
          return;
        }
        if p == null {
          return;
        }
        temp := p;
      }
    }

    lemma AscendingWith(c: Ctx<MapNode<K>>, node: MapNode<K>)
      requires Ascending(Before(c) + Behind(c), hash, cmp) && Narrowed(c, node.rawKey)
      ensures var s, i := Before(c) + Behind(c), |Before(c)|; Ascending(s[..i] + [node] + s[i..], hash, cmp)
    {
      hide Ascending, Before, Behind;
      var s, i := Before(c) + Behind(c), |Before(c)|;
      assert s[..i] == Before(c) && s[i..] == Behind(c);
      AscendingBetween(Before(c), node, Behind(c));
    }

    lemma AscendingBetween(b: seq<MapNode<K>>, node: MapNode<K>, a: seq<MapNode<K>>)
      requires Ascending(b + a, hash, cmp)
      requires forall n :: n in b ==> LessKey(n.rawKey, node.rawKey)
      requires forall n :: n in a ==> LessKey(node.rawKey, n.rawKey)
      ensures Ascending(b + [node] + a, hash, cmp)
    {
      var s, s', i := b + a, b + [node] + a, |b|;
      forall j, k | 0 <= j < k < |s'| ensures Less(hash, cmp, s'[j].rawKey, s'[k].rawKey) {
        if j == i {
          assert s'[k] in a;
        } else if k == i {
          assert s'[j] in b;
        } else {
          var j', k' := if j < i then j else j - 1, if k < i then k else k - 1;
          assert s'[j] == s[j'] && s'[k] == s[k'];
        }
      }
    }

    /** With a node added, a sequence maps every key as before, but for that node's own. */
    lemma HoldsWith(s: seq<MapNode<K>>, node: MapNode<K>, i: nat)
      requires Lawful(cmp) && i <= |s| && (forall n :: n in s ==> !SameKey(node.rawKey, n.rawKey))
      ensures forall k, n ::
                Holds(s[..i] + [node] + s[i..], k, n) <==> if SameKey(k, node.rawKey) then n == node else Holds(s, k, n)
    {
      var s' := s[..i] + [node] + s[i..];
      assert forall n :: n in s' <==> n == node || n in s by {
        assert s == s[..i] + s[i..];
      }
      forall k, n ensures Holds(s', k, n) <==> if SameKey(k, node.rawKey) then n == node else Holds(s, k, n) {
        LessIsOrder(hash, cmp, k, node.rawKey, k);
        LessIsOrder(hash, cmp, node.rawKey, k, n.rawKey);
      }
    }

    ghost predicate Absent(s: seq<MapNode<K>>, key: K)
      reads s`rawKey
    {
      forall n :: n in s ==> !SameKey(key, n.rawKey)
    }

    /**
     ngx_rbtree_insert, for a key that is not there: a node with its hash for a key never meets a node with the same
     key. A node with another key stored breaks the map, or is not hung in.
     */
    method Add(node: MapNode<K>, turns: seq<Turn>) returns (ghost i: nat)
      requires Valid() && node !in Contents() && Absent(Contents(), node.rawKey)
      modifies this`root, this`shape, node`left, node`right, node`parent
      modifies Nodes(shape)`left, Nodes(shape)`right, Nodes(shape)`parent
      ensures Built()
      ensures node.key == hash(node.rawKey) ==>
                && Valid() && Nodes(shape) == old(Nodes(shape)) + {node}
                && i <= |old(Contents())| && Contents() == old(Contents())[..i] + [node] + old(Contents())[i..]
      ensures node.key != hash(node.rawKey) ==> !(Valid() && node in Contents())
    {
      hide Inorder, Nodes, Links, Once, Linked, Keyed, Ascending, Plug;
      NodesAreAllocated(shape);
      AllInNodes();
      if root == null {
        i := 0;
        Only1(node);
        AttachKeyed(null, false, node, Top);
      } else {
        var done;
        done, i := InsertValue(node);
        if !done {
          return;
        }
      }
      NodesAreAllocated(shape);
      AllInNodes();
      TurnKeyed(turns);
      Misplaced(node);
    }

    /** `Rebalance` leaves the stored keys alone. */
    method TurnKeyed(turns: seq<Turn>)
      requires Built()
      modifies this`root, this`shape, Nodes(shape)`left, Nodes(shape)`right, Nodes(shape)`parent
      ensures Built() && Nodes(shape) == old(Nodes(shape)) && Contents() == old(Contents())
      ensures Keyed() <==> old(Keyed())
    {
      hide Inorder, Nodes, Links, Once, Linked, Turned;
      NodesAreAllocated(shape);
      Rebalance(turns);
    }

    lemma Misplaced(node: MapNode<K>)
      ensures node in Contents() && node.key != hash(node.rawKey) ==> !Keyed()
    {
      AllInNodes();
    }

    lemma Only1(node: MapNode<K>)
      requires Linked() && root == null
      ensures Contents() == [] && Plug(Top, Leaf) == shape && Nodes(shape) == {}
      ensures Inorder(Plug(Top, Br(Leaf, node, Leaf))) == [node] && Ascending([node], hash, cmp)
    {
    }

    /**
     ngx_map_insert: an absent key is added; a present one keeps its node, or gives it up when `covered`. That holds
     unless the node that is to cover is the one that is there: deleting it clears the key stored in it, and unless
     zero happens to be its hash it does not get back into its place.
     */
    method Insert(node: MapNode<K>, covered: bool, turns: seq<Turn>, turns': seq<Turn>)
      requires Valid()
      modifies this`root, this`shape, node`key, node`left, node`right, node`parent
      modifies Nodes(shape)`key, Nodes(shape)`left, Nodes(shape)`right, Nodes(shape)`parent
      ensures Built()
      ensures (Valid() && (covered ==> node in Contents())) <==>
                !(covered && node in old(Contents())) || hash(node.rawKey) == 0
      ensures !(covered && node in old(Contents())) || hash(node.rawKey) == 0 ==>
                forall k, n :: Holds(Contents(), k, n) <==>
                  if SameKey(k, node.rawKey) && (covered || Absent(old(Contents()), node.rawKey)) then n == node
                  else Holds(old(Contents()), k, n)
      ensures Absent(old(Contents()), node.rawKey) ==>
                exists i: nat | i <= |old(Contents())| ::
                  Contents() == old(Contents())[..i] + [node] + old(Contents())[i..]
      ensures !covered && !Absent(old(Contents()), node.rawKey) ==> Contents() == old(Contents())
      ensures forall i: nat | covered && i < |old(Contents())| && SameKey(node.rawKey, old(Contents())[i].rawKey)
                              && (node !in old(Contents()) || hash(node.rawKey) == 0) ::
                Contents() == old(Contents())[i := node]
    {
      hide Inorder, Nodes, Links, Once, Linked, Ascending, Holds;
      ghost var s := Contents();
      AllInNodes();
      NodesAreAllocated(shape);
      SameAsItself(node.rawKey);
      SetKey(node);
      var n := Find(node.rawKey);
      if n == null {
        ghost var i := Add(node, turns);
        HoldsWith(s, node, i);
      } else if covered {
        Cover(node, turns, turns');
      }
    }

    method SetKey(node: MapNode<K>)
      requires Valid()
      modifies node`key
      ensures Valid() && node.key == hash(node.rawKey)
    {
      hide Links, Nodes, Inorder;
      node.key := hash(node.rawKey);
    }

    lemma SameAsItself(key: K)
      requires Lawful(cmp)
      ensures SameKey(key, key)
    {
      LessIsOrder(hash, cmp, key, key, key);
    }

    /** The `covered` branch. */
    method Cover(node: MapNode<K>, turns: seq<Turn>, turns': seq<Turn>)
      requires Valid() && node.key == hash(node.rawKey) && !Absent(Contents(), node.rawKey)
      modifies this`root, this`shape, node`left, node`right, node`parent
      modifies Nodes(shape)`key, Nodes(shape)`left, Nodes(shape)`right, Nodes(shape)`parent
      ensures Built()
      ensures (Valid() && node in Contents()) <==> node !in old(Contents()) || hash(node.rawKey) == 0
      ensures node !in old(Contents()) || hash(node.rawKey) == 0 ==>
                forall k, n :: Holds(Contents(), k, n) <==>
                  if SameKey(k, node.rawKey) then n == node else Holds(old(Contents()), k, n)
      ensures forall i: nat | i < |old(Contents())| && SameKey(node.rawKey, old(Contents())[i].rawKey)
                              && (node !in old(Contents()) || hash(node.rawKey) == 0) ::
                Contents() == old(Contents())[i := node]
    {
      hide Inorder, Nodes, Links, Once, Linked, Keyed, Ascending, Holds;
      ghost var s := Contents();
      AllInNodes();
      NodesAreAllocated(shape);
      SameAsItself(node.rawKey);
      ghost var i: nat :| i < |s| && SameKey(node.rawKey, s[i].rawKey);
      Delete(node.rawKey, turns);
      ghost var s' := Contents();
      Gone(s, node.rawKey, i);
      assert node !in s';
      assert node.key == if node in s then 0 else hash(node.rawKey);
      ghost var j := Add(node, turns');
      hide Absent, Valid, Built;
      if node.key == hash(node.rawKey) {
        Covered(s, s', node, i, j);
      }
    }

    /** The input with which it fails: a node alone in the map covers itself. */
    method CoversItself(node: MapNode<K>, turns: seq<Turn>)
      requires Valid() && Contents() == [] && hash(node.rawKey) != 0
      modifies this`root, this`shape, node`key, node`left, node`right, node`parent
      ensures !(Valid() && node in Contents())
    {
      hide Links, Inorder, Linked, Holds;
      EmptyTree();
      Insert(node, true, [], []);
      assert Contents() == [node];
      OneNode(node);
      Insert(node, true, turns, turns);
    }

    lemma EmptyTree()
      requires Contents() == []
      ensures Nodes(shape) == {}
    {
      AllInNodes();
    }

    lemma OneNode(node: MapNode<K>)
      requires Contents() == [node]
      ensures Nodes(shape) == {node}
    {
      AllInNodes();
      assert Contents()[0] == node;
    }

    /** Out with the node of a key, in with another of the same key. */
    lemma Covered(s: seq<MapNode<K>>, s': seq<MapNode<K>>, node: MapNode<K>, i: nat, j: nat)
      requires Lawful(cmp) && Ascending(s, hash, cmp) && i < |s| && SameKey(node.rawKey, s[i].rawKey)
      requires j < |s| && s' == s[..i] + s[i + 1..] && Ascending(s'[..j] + [node] + s'[j..], hash, cmp)
      ensures var r := s'[..j] + [node] + s'[j..];
              && (forall k, n :: Holds(r, k, n) <==> if SameKey(k, node.rawKey) then n == node else Holds(s, k, n))
              && (forall k: nat | k < |s| && SameKey(node.rawKey, s[k].rawKey) :: r == s[k := node])
    {
      hide Ascending, Holds, Lawful;
      Gone(s, node.rawKey, i);
      HoldsWithout(s, node.rawKey, i);
      HoldsWith(s', node, j);
      SamePlace(s, node, i, j);
      forall k: nat | k < |s| && SameKey(node.rawKey, s[k].rawKey) ensures k == i {
        HoldsOne(s, node.rawKey, i, k);
      }
    }

    lemma Gone(s: seq<MapNode<K>>, key: K, i: nat)
      requires Lawful(cmp) && Ascending(s, hash, cmp) && i < |s| && SameKey(key, s[i].rawKey)
      ensures Absent(s[..i] + s[i + 1..], key)
    {
      hide Ascending;
      var s' := s[..i] + s[i + 1..];
      forall n | n in s' ensures !SameKey(key, n.rawKey) {
        var j: nat :| j < |s'| && s'[j] == n;
        var at := if j < i then j else j + 1;
        if SameKey(key, s[at].rawKey) {
          HoldsOne(s, key, i, at);
          assert false;
        }
      }
    }

    /** A node with the key of the one that left can only take its place. */
    lemma SamePlace(s: seq<MapNode<K>>, node: MapNode<K>, i: nat, j: nat)
      requires Lawful(cmp) && Ascending(s, hash, cmp) && i < |s| && SameKey(node.rawKey, s[i].rawKey)
      requires j < |s|
      requires var s' := s[..i] + s[i + 1..]; Ascending(s'[..j] + [node] + s'[j..], hash, cmp)
      ensures var s' := s[..i] + s[i + 1..]; s'[..j] + [node] + s'[j..] == s[i := node]
    {
      hide Ascending, Lawful;
      var s' := s[..i] + s[i + 1..];
      var r := s'[..j] + [node] + s'[j..];
      var at := if j < i then j + 1 else if j > i then j - 1 else j;
      assert r[j] == node && r[at] == if j == i then node else s[j];
      LessAt(r, j, at);
      LessThanOwn(s, node, i, j);
    }

    lemma LessAt(s: seq<MapNode<K>>, i: nat, j: nat)
      requires Lawful(cmp) && Ascending(s, hash, cmp) && i < |s| && j < |s|
      ensures LessKey(s[i].rawKey, s[j].rawKey) <==> i < j
    {
      LessIsOrder(hash, cmp, s[i].rawKey, s[j].rawKey, s[i].rawKey);
    }

    /** A node is before and behind the same others as the one with its key. */
    lemma LessThanOwn(s: seq<MapNode<K>>, node: MapNode<K>, i: nat, j: nat)
      requires Lawful(cmp) && Ascending(s, hash, cmp) && i < |s| && j < |s| && SameKey(node.rawKey, s[i].rawKey)
      ensures LessKey(node.rawKey, s[j].rawKey) <==> i < j
    {
      LessAt(s, i, j);
      LessIsOrder(hash, cmp, node.rawKey, s[i].rawKey, s[j].rawKey);
      LessIsOrder(hash, cmp, s[i].rawKey, node.rawKey, s[j].rawKey);
    }
  }
}