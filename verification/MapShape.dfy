/**
 Binary trees with parent links, as values: the shape of a tree, the links its nodes must carry, and how both
 change when one subtree is replaced where it stands. Every operation of the map is such a replacement.
 */
module MapShape {
  import opened Bytes

  datatype Shape<N> = Leaf | Br(left: Shape<N>, node: N, right: Shape<N>)

  /** None stands for the sentinel. */
  datatype Link<N> = Link(left: Option<N>, right: Option<N>, parent: Option<N>)

  /** A tree with one subtree taken out: the path from the hole to the root. */
  datatype Ctx<N> = Top | LeftOf(node: N, right: Shape<N>, up: Ctx<N>) | RightOf(left: Shape<N>, node: N, up: Ctx<N>)

  function Inorder<N>(t: Shape<N>): seq<N> {
    match t
    case Leaf => []
    case Br(l, n, r) => Inorder(l) + [n] + Inorder(r)
  }

  function Root<N>(t: Shape<N>): Option<N> {
    match t
    case Leaf => None
    case Br(_, n, _) => Some(n)
  }

  function Parent<N>(c: Ctx<N>): Option<N> {
    match c
    case Top => None
    case LeftOf(n, _, _) => Some(n)
    case RightOf(_, n, _) => Some(n)
  }

  function Plug<N>(c: Ctx<N>, t: Shape<N>): Shape<N>
    decreases c
  {
    match c
    case Top => t
    case LeftOf(n, r, up) => Plug(up, Br(t, n, r))
    case RightOf(l, n, up) => Plug(up, Br(l, n, t))
  }

  /** What stands before and behind the hole. */
  function Before<N>(c: Ctx<N>): seq<N>
    decreases c
  {
    match c
    case Top => []
    case LeftOf(_, _, up) => Before(up)
    case RightOf(l, n, up) => Before(up) + Inorder(l) + [n]
  }

  function Behind<N>(c: Ctx<N>): seq<N>
    decreases c
  {
    match c
    case Top => []
    case LeftOf(n, r, up) => [n] + Inorder(r) + Behind(up)
    case RightOf(_, _, up) => Behind(up)
  }

  lemma Regroup<N>(a: seq<N>, b: seq<N>, c: seq<N>, d: seq<N>, e: seq<N>)
    ensures a + (b + c + d) + e == a + b + (c + d + e)
    ensures a + (b + c + d) + e == (a + b + c) + d + e
  {
  }

  lemma {:induction false} InorderOfPlug<N>(c: Ctx<N>, t: Shape<N>)
    ensures Inorder(Plug(c, t)) == Before(c) + Inorder(t) + Behind(c)
    decreases c
  {
    match c
    case Top =>
    case LeftOf(n, r, up) =>
      InorderOfPlug(up, Br(t, n, r));
      Regroup(Before(up), Inorder(t), [n], Inorder(r), Behind(up));
    case RightOf(l, n, up) =>
      InorderOfPlug(up, Br(l, n, t));
      Regroup(Before(up), Inorder(l), [n], Inorder(t), Behind(up));
  }

  // ----- nodes occur once

  ghost function Nodes<N>(t: Shape<N>): set<N> {
    match t
    case Leaf => {}
    case Br(l, n, r) => Nodes(l) + {n} + Nodes(r)
  }

  ghost function Around<N>(c: Ctx<N>): set<N>
    decreases c
  {
    match c
    case Top => {}
    case LeftOf(n, r, up) => {n} + Nodes(r) + Around(up)
    case RightOf(l, n, up) => Nodes(l) + {n} + Around(up)
  }

  /** No node occurs twice. */
  ghost predicate Once<N>(t: Shape<N>) {
    t.Br? ==>
      && t.node !in Nodes(t.left) && t.node !in Nodes(t.right) && Nodes(t.left) !! Nodes(t.right)
      && Once(t.left) && Once(t.right)
  }

  ghost predicate OnceAround<N>(c: Ctx<N>)
    decreases c
  {
    match c
    case Top => true
    case LeftOf(n, t, up) =>
      n !in Nodes(t) && n !in Around(up) && Nodes(t) !! Around(up) && Once(t) && OnceAround(up)
    case RightOf(t, n, up) =>
      n !in Nodes(t) && n !in Around(up) && Nodes(t) !! Around(up) && Once(t) && OnceAround(up)
  }

  lemma {:induction false} NodesOfPlug<N>(c: Ctx<N>, t: Shape<N>)
    ensures Nodes(Plug(c, t)) == Nodes(t) + Around(c)
    ensures Once(Plug(c, t)) <==> Once(t) && OnceAround(c) && Nodes(t) !! Around(c)
    decreases c
  {
    match c
    case Top =>
    case LeftOf(n, r, up) => NodesOfPlug(up, Br(t, n, r));
    case RightOf(l, n, up) => NodesOfPlug(up, Br(l, n, t));
  }

  lemma {:induction false} InorderHasNode<N>(t: Shape<N>, n: N)
    ensures n in Inorder(t) <==> n in Nodes(t)
    decreases t
  {
    if t.Br? {
      InorderHasNode(t.left, n);
      InorderHasNode(t.right, n);
    }
  }

  lemma InorderHasNodes<N>(t: Shape<N>)
    ensures forall n :: n in Inorder(t) <==> n in Nodes(t)
  {
    forall n ensures n in Inorder(t) <==> n in Nodes(t) {
      InorderHasNode(t, n);
    }
  }

  ghost predicate Distinct<N>(s: seq<N>) {
    forall i, j :: 0 <= i < j < |s| ==> s[i] != s[j]
  }

  lemma NodeAt<N>(t: Shape<N>, i: nat)
    requires i < |Inorder(t)|
    ensures Inorder(t)[i] in Nodes(t)
  {
    InorderHasNode(t, Inorder(t)[i]);
  }

  lemma {:induction false} OnceIsDistinct<N>(t: Shape<N>)
    requires Once(t)
    ensures Distinct(Inorder(t))
    decreases t
  {
    if t.Br? {
      OnceIsDistinct(t.left);
      OnceIsDistinct(t.right);
      var l, r := Inorder(t.left), Inorder(t.right);
      var s := l + [t.node] + r;
      forall i, j | 0 <= i < j < |s| ensures s[i] != s[j] {
        if i < |l| {
          NodeAt(t.left, i);
        }
        if j > |l| {
          NodeAt(t.right, j - |l| - 1);
        }
      }
    }
  }

  // ----- links

  /** The links of the nodes of `t` when it hangs under `up`. */
  ghost function Links<N>(t: Shape<N>, up: Option<N>): (m: map<N, Link<N>>)
    ensures m.Keys == Nodes(t)
  {
    match t
    case Leaf => map[]
    case Br(l, n, r) => Links(l, Some(n)) + Links(r, Some(n)) + map[n := Link(Root(l), Root(r), up)]
  }

  /** The links of the nodes around the hole, when a tree with root `hole` is in it. */
  ghost function CtxLinks<N>(c: Ctx<N>, hole: Option<N>): (m: map<N, Link<N>>)
    ensures m.Keys == Around(c)
    decreases c
  {
    match c
    case Top => map[]
    case LeftOf(n, r, up) =>
      CtxLinks(up, Some(n)) + Links(r, Some(n)) + map[n := Link(hole, Root(r), Parent(up))]
    case RightOf(l, n, up) =>
      CtxLinks(up, Some(n)) + Links(l, Some(n)) + map[n := Link(Root(l), hole, Parent(up))]
  }

  lemma Shuffle<N, V>(around: map<N, V>, t: map<N, V>, sibling: map<N, V>, parent: map<N, V>)
    requires t.Keys !! sibling.Keys && t.Keys !! parent.Keys
    ensures around + (t + sibling + parent) == (around + sibling + parent) + t
    ensures around + (sibling + t + parent) == (around + sibling + parent) + t
  {
  }

  /** The links of a whole tree are those around a hole and those of the tree in it. */
  lemma {:induction false} LinksOfPlug<N>(c: Ctx<N>, t: Shape<N>)
    requires OnceAround(c) && Once(t) && Nodes(t) !! Around(c)
    ensures Links(Plug(c, t), None) == CtxLinks(c, Root(t)) + Links(t, Parent(c))
    decreases c
  {
    match c
    case Top =>
      assert map[] + Links(t, None) == Links(t, None);
    case LeftOf(n, r, up) =>
      LinksOfPlug(up, Br(t, n, r));
      Shuffle(CtxLinks(up, Some(n)), Links(t, Some(n)), Links(r, Some(n)),
              map[n := Link(Root(t), Root(r), Parent(up))]);
    case RightOf(l, n, up) =>
      LinksOfPlug(up, Br(l, n, t));
      Shuffle(CtxLinks(up, Some(n)), Links(t, Some(n)), Links(l, Some(n)),
              map[n := Link(Root(l), Root(t), Parent(up))]);
  }

  lemma CtxLinksDiffer<N>(c: Ctx<N>, h: Option<N>, h': Option<N>)
    requires OnceAround(c)
    ensures forall n :: n in Around(c) && Parent(c) != Some(n) ==> CtxLinks(c, h')[n] == CtxLinks(c, h)[n]
    ensures !c.Top? ==> c.node in Around(c)
    ensures c.LeftOf? ==> CtxLinks(c, h')[c.node] == CtxLinks(c, h)[c.node].(left := h')
    ensures c.RightOf? ==> CtxLinks(c, h')[c.node] == CtxLinks(c, h)[c.node].(right := h')
  {
  }

  /** What a replacement at a hole does to the links: only its own nodes and the parent's pointer change. */
  lemma LinksAfterReplace<N>(c: Ctx<N>, t: Shape<N>, t': Shape<N>)
    requires OnceAround(c)
    requires Once(t) && Nodes(t) !! Around(c) && Once(t') && Nodes(t') !! Around(c)
    ensures var was := Links(Plug(c, t), None);
            var now := Links(Plug(c, t'), None);
            && was.Keys == Nodes(t) + Around(c) && now.Keys == Nodes(t') + Around(c)
            && (forall n :: n in Nodes(t') ==> now[n] == Links(t', Parent(c))[n])
            && (forall n :: n in Around(c) && Parent(c) != Some(n) ==> now[n] == was[n])
            && (!c.Top? ==> c.node in Around(c))
            && (c.LeftOf? ==> now[c.node] == was[c.node].(left := Root(t')))
            && (c.RightOf? ==> now[c.node] == was[c.node].(right := Root(t')))
  {
    hide Links, CtxLinks, Plug, Around, Nodes, Once, OnceAround;
    LinksOfPlug(c, t);
    LinksOfPlug(c, t');
    CtxLinksDiffer(c, Root(t), Root(t'));
  }

  /** At a hole: the links of the tree in it, and how its parent points to it. */
  lemma LinksAtHole<N>(c: Ctx<N>, t: Shape<N>)
    requires OnceAround(c) && Once(t) && Nodes(t) !! Around(c)
    ensures var links := Links(Plug(c, t), None);
            && links.Keys == Nodes(t) + Around(c)
            && (forall n :: n in Nodes(t) ==> links[n] == Links(t, Parent(c))[n])
            && (!c.Top? ==> c.node in Around(c))
            && (c.LeftOf? ==> links[c.node].left == Root(t) && links[c.node].parent == Parent(c.up))
            && (c.RightOf? ==> links[c.node].right == Root(t) && links[c.node].parent == Parent(c.up))
            && (c.RightOf? && t.Br? ==> links[c.node].left != Root(t))
            && (c.LeftOf? && t.Br? ==> links[c.node].right != Root(t))
  {
    hide Links, Plug;
    LinksOfPlug(c, t);
    NodesOfPlug(c, t);
  }

  /** Every node of a tree is the root of a subtree in some hole. */
  lemma {:induction false} Focus<N>(c: Ctx<N>, t: Shape<N>, n: N) returns (c': Ctx<N>, s: Shape<N>)
    requires n in Nodes(t)
    ensures Plug(c', s) == Plug(c, t) && s.Br? && s.node == n
    decreases t
  {
    if n == t.node {
      c', s := c, t;
    } else if n in Nodes(t.left) {
      c', s := Focus(LeftOf(t.node, t.right, c), t.left, n);
    } else {
      c', s := Focus(RightOf(t.left, t.node, c), t.right, n);
    }
  }

  /** Only a hole at the top has the root of the whole tree in it. */
  lemma {:induction false} RootOfPlug<N>(c: Ctx<N>, t: Shape<N>)
    requires t.Br?
    ensures Root(Plug(c, t)).Some?
    ensures (if c.Top? then Root(Plug(c, t)) == Root(t) else Root(Plug(c, t)).value in Around(c))
    decreases c
  {
    match c
    case Top =>
    case LeftOf(n, r, up) => RootOfPlug(up, Br(t, n, r));
    case RightOf(l, n, up) => RootOfPlug(up, Br(l, n, t));
  }

  // ----- turning

  function TurnedLeft<N>(t: Shape<N>): Shape<N>
    requires t.Br? && t.right.Br?
  {
    Br(Br(t.left, t.node, t.right.left), t.right.node, t.right.right)
  }

  function TurnedRight<N>(t: Shape<N>): Shape<N>
    requires t.Br? && t.left.Br?
  {
    Br(t.left.left, t.left.node, Br(t.left.right, t.node, t.right))
  }

  /** The two turns undo each other. */
  lemma TurnsUndo<N>(t: Shape<N>)
    requires t.Br?
    ensures t.right.Br? ==> TurnedRight(TurnedLeft(t)) == t
    ensures t.left.Br? ==> TurnedLeft(TurnedRight(t)) == t
  {
  }

  lemma Reassociate<N>(a: seq<N>, x: seq<N>, b: seq<N>, y: seq<N>, c: seq<N>)
    ensures a + x + (b + y + c) == (a + x + b) + y + c
  {
  }

  lemma TurnKeepsOrder<N>(t: Shape<N>)
    requires t.Br? && t.right.Br?
    ensures Inorder(TurnedLeft(t)) == Inorder(t)
  {
    var a, b, c := Inorder(t.left), Inorder(t.right.left), Inorder(t.right.right);
    var s := TurnedLeft(t);
    assert Inorder(t.right) == b + [t.right.node] + c;
    assert Inorder(s.left) == a + [t.node] + b;
    Reassociate(a, [t.node], b, [t.right.node], c);
  }

  lemma TurnKeepsNodes<N>(t: Shape<N>)
    requires t.Br? && t.right.Br?
    ensures Nodes(TurnedLeft(t)) == Nodes(t)
    ensures Once(t) <==> Once(TurnedLeft(t))
  {
    var s := TurnedLeft(t);
    assert Nodes(t.right) == Nodes(t.right.left) + {t.right.node} + Nodes(t.right.right);
    assert Nodes(s.left) == Nodes(t.left) + {t.node} + Nodes(t.right.left);
  }

  /** The links of a tree do not depend on what it hangs under, but for its root. */
  lemma LinksUnder<N>(t: Shape<N>, up: Option<N>, up': Option<N>)
    ensures forall n :: n in Nodes(t) && Root(t) != Some(n) ==> Links(t, up')[n] == Links(t, up)[n]
    ensures t.Br? ==> Links(t, up')[t.node] == Links(t, up)[t.node].(parent := up') && Links(t, up)[t.node].parent == up
  {
  }

  lemma Rearrange<N, V>(l: map<N, V>, m: map<N, V>, m': map<N, V>, r: map<N, V>, x: N, y: N, vx: V, vy: V, vx': V,
                        vy': V)
    requires x != y && x !in l && y !in l && x !in m && y !in m && x !in r && y !in r
    requires l.Keys !! m.Keys && l.Keys !! r.Keys && m.Keys !! r.Keys && m.Keys == m'.Keys
    ensures var was := l + (m + r + map[y := vy]) + map[x := vx];
            var now := (l + m' + map[x := vx']) + r + map[y := vy'];
            && was.Keys == now.Keys && x in now && y in now && now[x] == vx' && now[y] == vy'
            && (forall n :: n in m ==> n in now && was[n] == m[n] && now[n] == m'[n])
            && (forall n :: n in now && n != x && n != y && n !in m ==> now[n] == was[n])
  {
  }

  /** What a left turn does to the links. */
  lemma TurnLinks<N>(t: Shape<N>, up: Option<N>)
    requires t.Br? && t.right.Br? && Once(t)
    ensures var x, y, b := t.node, t.right.node, t.right.left;
            var was, now := Links(t, up), Links(TurnedLeft(t), up);
            && x in Nodes(t) && y in Nodes(t) && x != y && now.Keys == Nodes(t) && was.Keys == Nodes(t)
            && now[x] == Link(Root(t.left), Root(b), Some(y))
            && now[y] == Link(Some(x), Root(t.right.right), up)
            && was[x] == Link(Root(t.left), Some(y), up)
            && was[y] == Link(Root(b), Root(t.right.right), Some(x))
            && (b.Br? ==> b.node in Nodes(t) && now[b.node] == was[b.node].(parent := Some(x)))
            && (b.Br? ==> was[b.node] == now[b.node].(parent := Some(y)))
            && (forall n :: n in Nodes(t) && n != x && n != y && Root(b) != Some(n) ==> now[n] == was[n])
  {
    hide Links;
    var x, y, b := t.node, t.right.node, t.right.left;
    var l, m, m', r := Links(t.left, Some(x)), Links(b, Some(y)), Links(b, Some(x)), Links(t.right.right, Some(y));
    LinksUnder(b, Some(y), Some(x));
    Rearrange(l, m, m', r, x, y, Link(Root(t.left), Some(y), up), Link(Root(b), Root(t.right.right), Some(x)),
      Link(Root(t.left), Root(b), Some(y)), Link(Some(x), Root(t.right.right), up));
    LinksOfTurned(t, up);
    assert b.Br? ==> b.node in m;
  }

  lemma LinksOfTurned<N>(t: Shape<N>, up: Option<N>)
    requires t.Br? && t.right.Br?
    ensures var x, y, b, c := t.node, t.right.node, t.right.left, t.right.right;
            && Links(t, up) == Links(t.left, Some(x))
                + (Links(b, Some(y)) + Links(c, Some(y)) + map[y := Link(Root(b), Root(c), Some(x))])
                + map[x := Link(Root(t.left), Some(y), up)]
            && Links(TurnedLeft(t), up) ==
               (Links(t.left, Some(x)) + Links(b, Some(x)) + map[x := Link(Root(t.left), Root(b), Some(y))])
                + Links(c, Some(y)) + map[y := Link(Some(x), Root(c), up)]
  {
    var s := TurnedLeft(t);
    assert Links(s.left, Some(s.node)) == Links(t.left, Some(t.node)) + Links(t.right.left, Some(t.node))
        + map[t.node := Link(Root(t.left), Root(t.right.left), Some(s.node))];
  }

  /** A left turn at a hole, on the links of the whole tree. */
  lemma LeftTurnInPlace<N>(c: Ctx<N>, t: Shape<N>)
    requires OnceAround(c) && Once(t) && Nodes(t) !! Around(c) && t.Br? && t.right.Br?
    ensures var x, y, b := t.node, t.right.node, t.right.left;
            var was, now := Links(Plug(c, t), None), Links(Plug(c, TurnedLeft(t)), None);
            && x in was && y in was && x != y && was.Keys == now.Keys && Once(Plug(c, TurnedLeft(t)))
            && now[x] == was[x].(right := Root(b), parent := Some(y))
            && now[y] == was[y].(left := Some(x), parent := Parent(c))
            && (b.Br? ==> b.node in was && b.node != x && b.node != y && Parent(c) != Some(b.node))
            && (b.Br? ==> now[b.node] == was[b.node].(parent := Some(x)))
            && (!c.Top? ==> c.node in was && c.node != x && c.node != y)
            && (c.LeftOf? ==> now[c.node] == was[c.node].(left := Some(y)))
            && (c.RightOf? ==> now[c.node] == was[c.node].(right := Some(y)))
            && (forall n :: n in was && n != x && n != y && Root(b) != Some(n) && Parent(c) != Some(n) ==>
                now[n] == was[n])
  {
    TurnLinks(t, Parent(c));
    TurnKeepsNodes(t);
    LinksAfterReplace(c, t, TurnedLeft(t));
    LinksAtHole(c, t);
    NodesOfPlug(c, TurnedLeft(t));
    assert t.right.left.Br? ==> t.right.left.node in Nodes(t.right) && t.right.node in Nodes(t.right);
    hide Links, CtxLinks, Plug, Around, Nodes, OnceAround;
  }

  /** A right turn undoes the left turn of its outcome. */
  lemma RightTurnInPlace<N>(c: Ctx<N>, t: Shape<N>)
    requires OnceAround(c) && Once(t) && Nodes(t) !! Around(c) && t.Br? && t.left.Br?
    ensures var x, y, b := t.node, t.left.node, t.left.right;
            var was, now := Links(Plug(c, t), None), Links(Plug(c, TurnedRight(t)), None);
            && x in was && y in was && x != y && was.Keys == now.Keys && Once(Plug(c, TurnedRight(t)))
            && now[x] == was[x].(left := Root(b), parent := Some(y))
            && now[y] == was[y].(right := Some(x), parent := Parent(c))
            && (b.Br? ==> b.node in was && b.node != x && b.node != y && Parent(c) != Some(b.node))
            && (b.Br? ==> now[b.node] == was[b.node].(parent := Some(x)))
            && (!c.Top? ==> c.node in was && c.node != x && c.node != y)
            && (c.LeftOf? ==> now[c.node] == was[c.node].(left := Some(y)))
            && (c.RightOf? ==> now[c.node] == was[c.node].(right := Some(y)))
            && (forall n :: n in was && n != x && n != y && Root(b) != Some(n) && Parent(c) != Some(n) ==>
                now[n] == was[n])
  {
    var s := TurnedRight(t);
    TurnsUndo(t);
    TurnKeepsNodes(s);
    TurnLinks(s, Parent(c));
    LinksAfterReplace(c, t, s);
    LinksAtHole(c, t);
    NodesOfPlug(c, s);
    assert t.left.right.Br? ==> t.left.right.node in Nodes(t.left) && t.left.node in Nodes(t.left);
    hide Links, CtxLinks, Plug, Around, Nodes, OnceAround;
  }

  // ----- adding, removing and exchanging a node

  lemma {:induction false} RootStays<N>(c: Ctx<N>, t: Shape<N>, t': Shape<N>)
    requires !c.Top?
    ensures Root(Plug(c, t)) == Root(Plug(c, t'))
    decreases c
  {
    if !c.up.Top? {
      match c
      case LeftOf(n, r, up) => RootStays(up, Br(t, n, r), Br(t', n, r));
      case RightOf(l, n, up) => RootStays(up, Br(l, n, t), Br(l, n, t'));
    }
  }

  lemma Single<N>(n: N, up: Option<N>)
    ensures Nodes<N>(Leaf) == {} && Once<N>(Leaf)
    ensures Nodes(Br(Leaf, n, Leaf)) == {n} && Once(Br(Leaf, n, Leaf))
    ensures Links(Br(Leaf, n, Leaf), up) == map[n := Link(None, None, up)]
  {
    assert Links<N>(Leaf, Some(n)) == map[];
  }

  /** A new node in an empty place. */
  lemma AttachInPlace<N>(c: Ctx<N>, node: N)
    requires OnceAround(c) && node !in Around(c)
    ensures var t := Br(Leaf, node, Leaf);
            var was, now := Links(Plug(c, Leaf), None), Links(Plug(c, t), None);
            && node !in was && now.Keys == was.Keys + {node} && Once(Plug(c, t))
            && now[node] == Link(None, None, Parent(c))
            && (!c.Top? ==> c.node in was)
            && (c.LeftOf? ==> now[c.node] == was[c.node].(left := Some(node)))
            && (c.RightOf? ==> now[c.node] == was[c.node].(right := Some(node)))
            && (forall n :: n in was && Parent(c) != Some(n) ==> now[n] == was[n])
  {
    hide Links, CtxLinks, Plug, Around, Nodes, Once, OnceAround;
    Single(node, Parent(c));
    LinksAfterReplace(c, Leaf, Br(Leaf, node, Leaf));
    NodesOfPlug(c, Br(Leaf, node, Leaf));
  }

  /** The one subtree of a node with a child missing. */
  function Only<N>(t: Shape<N>): Shape<N>
    requires t.Br? && (t.left.Leaf? || t.right.Leaf?)
  {
    if t.left.Leaf? then t.right else t.left
  }

  /** A node with a child missing gives way to its other child. */
  lemma SpliceInPlace<N>(c: Ctx<N>, t: Shape<N>)
    requires OnceAround(c) && Once(t) && Nodes(t) !! Around(c) && t.Br? && (t.left.Leaf? || t.right.Leaf?)
    ensures var s := Only(t);
            var was, now := Links(Plug(c, t), None), Links(Plug(c, s), None);
            && t.node in was && now.Keys == was.Keys - {t.node} && Once(Plug(c, s))
            && (s.Br? ==>
                  s.node in now && now[s.node] == was[s.node].(parent := Parent(c)) && Parent(c) != Some(s.node))
            && (!c.Top? ==> c.node in now)
            && (c.LeftOf? ==> now[c.node] == was[c.node].(left := Root(s)))
            && (c.RightOf? ==> now[c.node] == was[c.node].(right := Root(s)))
            && (forall n :: n in now && Root(s) != Some(n) && Parent(c) != Some(n) ==> now[n] == was[n])
  {
    hide Links, CtxLinks, Plug, Around, OnceAround, Nodes, Once;
    var s := Only(t);
    LinksOfOnly(t, Parent(c));
    LinksAfterReplace(c, t, s);
    LinksAtHole(c, t);
    NodesOfPlug(c, s);
    LinksUnder(s, Some(t.node), Parent(c));
  }

  lemma LinksOfOnly<N>(t: Shape<N>, up: Option<N>)
    requires Once(t) && t.Br? && (t.left.Leaf? || t.right.Leaf?)
    ensures t.node !in Nodes(Only(t)) && Nodes(t) == Nodes(Only(t)) + {t.node} && Once(Only(t))
    ensures Only(t).Br? ==> Only(t).node in Nodes(Only(t))
    ensures forall n :: n in Nodes(Only(t)) ==> Links(t, up)[n] == Links(Only(t), Some(t.node))[n]
  {
  }

  /** One node takes the place of another. */
  lemma SupplantInPlace<N>(c: Ctx<N>, t: Shape<N>, m: N)
    requires OnceAround(c) && Once(t) && Nodes(t) !! Around(c) && t.Br? && m !in Nodes(t) && m !in Around(c)
    ensures var t' := Br(t.left, m, t.right);
            var was, now := Links(Plug(c, t), None), Links(Plug(c, t'), None);
            && t.node in was && m !in was && now.Keys == was.Keys - {t.node} + {m} && Once(Plug(c, t'))
            && now[m] == was[t.node]
            && (t.left.Br? ==> t.left.node in was && t.left.node != t.node && Parent(c) != Some(t.left.node))
            && (t.left.Br? ==> now[t.left.node] == was[t.left.node].(parent := Some(m)))
            && (t.right.Br? ==> t.right.node in was && t.right.node != t.node && Parent(c) != Some(t.right.node))
            && (t.right.Br? ==> now[t.right.node] == was[t.right.node].(parent := Some(m)))
            && (!c.Top? ==> c.node in now && c.node != t.node)
            && (c.LeftOf? ==> now[c.node] == was[c.node].(left := Some(m)))
            && (c.RightOf? ==> now[c.node] == was[c.node].(right := Some(m)))
            && (forall n ::
                  n in now && n != m && Root(t.left) != Some(n) && Root(t.right) != Some(n) && Parent(c) != Some(n) ==>
                    now[n] == was[n])
  {
    hide Links, CtxLinks, Plug, Around, OnceAround, Nodes, Once;
    var t' := Br(t.left, m, t.right);
    LinksOfExchange(t, m, Parent(c));
    LinksAfterReplace(c, t, t');
    LinksAtHole(c, t);
    NodesOfPlug(c, t');
  }

  lemma LinksOfExchange<N>(t: Shape<N>, m: N, up: Option<N>)
    requires Once(t) && t.Br? && m !in Nodes(t)
    ensures var t' := Br(t.left, m, t.right);
            var was, now := Links(t, up), Links(t', up);
            && Once(t') && now.Keys == Nodes(t') == Nodes(t) - {t.node} + {m} && t.node in Nodes(t)
            && now[m] == was[t.node]
            && (t.left.Br? ==> t.left.node in Nodes(t) && t.left.node in Nodes(t') && t.left.node != t.node)
            && (t.left.Br? ==> now[t.left.node] == was[t.left.node].(parent := Some(m)))
            && (t.right.Br? ==> t.right.node in Nodes(t) && t.right.node in Nodes(t') && t.right.node != t.node)
            && (t.right.Br? ==> now[t.right.node] == was[t.right.node].(parent := Some(m)))
            && (forall n :: n in Nodes(t') && n != m && Root(t.left) != Some(n) && Root(t.right) != Some(n)
                  ==> now[n] == was[n])
  {
    hide Links;
    var l, r, l', r' := Links(t.left, Some(t.node)), Links(t.right, Some(t.node)), Links(t.left, Some(m)),
      Links(t.right, Some(m));
    LinksUnder(t.left, Some(t.node), Some(m));
    LinksUnder(t.right, Some(t.node), Some(m));
    LinksOfBr(t, up);
    LinksOfBr(Br(t.left, m, t.right), up);
    Rename(l, r, l', r', t.node, m, Link(Root(t.left), Root(t.right), up));
    assert t.left.Br? ==> t.left.node in l;
    assert t.right.Br? ==> t.right.node in r;
  }

  lemma LinksOfBr<N>(t: Shape<N>, up: Option<N>)
    requires t.Br?
    ensures Links(t, up)
         == Links(t.left, Some(t.node)) + Links(t.right, Some(t.node)) +
           map[t.node := Link(Root(t.left), Root(t.right), up)]
  {
  }

  lemma Rename<N, V>(l: map<N, V>, r: map<N, V>, l': map<N, V>, r': map<N, V>, n: N, m: N, v: V)
    requires n !in l && n !in r && m !in l && m !in r && l.Keys !! r.Keys && l'.Keys == l.Keys && r'.Keys == r.Keys
    ensures var was, now := l + r + map[n := v], l' + r' + map[m := v];
            && now[m] == v && was[n] == v && was.Keys == l.Keys + r.Keys + {n} && now.Keys == l.Keys + r.Keys + {m}
            && (forall k :: k in l ==> was[k] == l[k] && now[k] == l'[k])
            && (forall k :: k in r ==> was[k] == r[k] && now[k] == r'[k])
  {
  }

  // ----- the same three changes, on the order

  lemma AttachInOrder<N>(c: Ctx<N>, node: N)
    ensures var s, i := Inorder(Plug(c, Leaf)), |Before(c)|;
            i <= |s| && Inorder(Plug(c, Br(Leaf, node, Leaf))) == s[..i] + [node] + s[i..] && s == Before(c) + Behind(c)
  {
    InorderOfPlug(c, Leaf);
    InorderOfPlug(c, Br(Leaf, node, Leaf));
    assert Inorder(Br(Leaf, node, Leaf)) == [node];
    assert Before(c) + [] == Before(c);
  }

  lemma CutAt<N>(b: seq<N>, l: seq<N>, n: N, r: seq<N>, a: seq<N>)
    ensures var s, i := b + (l + [n] + r) + a, |b| + |l|;
            i < |s| && s[i] == n && s[..i] == b + l && s[i + 1..] == r + a
  {
    assert b + (l + [n] + r) + a == (b + l) + [n] + (r + a);
  }

  lemma Without<N>(b: seq<N>, l: seq<N>, n: N, r: seq<N>, a: seq<N>)
    ensures var s, i := b + (l + [n] + r) + a, |b| + |l|;
            i < |s| && s[i] == n && b + (l + r) + a == s[..i] + s[i + 1..]
  {
    CutAt(b, l, n, r, a);
    assert b + (l + r) + a == (b + l) + (r + a);
  }

  lemma UpdateAt<N>(b: seq<N>, l: seq<N>, n: N, m: N, r: seq<N>, a: seq<N>)
    ensures (b + (l + [n] + r) + a)[|b| + |l| := m] == b + (l + [m] + r) + a
  {
  }

  lemma OnlyInOrder<N>(t: Shape<N>)
    requires t.Br? && (t.left.Leaf? || t.right.Leaf?)
    ensures Inorder(Only(t)) == Inorder(t.left) + Inorder(t.right)
  {
  }

  lemma SpliceInOrder<N>(c: Ctx<N>, t: Shape<N>)
    requires t.Br? && (t.left.Leaf? || t.right.Leaf?)
    ensures var s, i := Inorder(Plug(c, t)), |Before(c)| + |Inorder(t.left)|;
            i < |s| && s[i] == t.node && Inorder(Plug(c, Only(t))) == s[..i] + s[i + 1..]
  {
    hide Plug, Before, Behind;
    var b, l, r, a := Before(c), Inorder(t.left), Inorder(t.right), Behind(c);
    assert Inorder(t) == l + [t.node] + r;
    hide Inorder;
    OnlyInOrder(t);
    InorderOfPlug(c, t);
    InorderOfPlug(c, Only(t));
    Without(b, l, t.node, r, a);
  }

  lemma SupplantInOrder<N>(c: Ctx<N>, t: Shape<N>, m: N)
    requires t.Br?
    ensures var s, i := Inorder(Plug(c, t)), |Before(c)| + |Inorder(t.left)|;
            i < |s| && s[i] == t.node && Inorder(Plug(c, Br(t.left, m, t.right))) == s[i := m]
  {
    hide Plug, Before, Behind;
    var b, l, r, a := Before(c), Inorder(t.left), Inorder(t.right), Behind(c);
    assert Inorder(t) == l + [t.node] + r && Inorder(Br(t.left, m, t.right)) == l + [m] + r;
    hide Inorder;
    InorderOfPlug(c, t);
    InorderOfPlug(c, Br(t.left, m, t.right));
    CutAt(b, l, t.node, r, a);
    UpdateAt(b, l, t.node, m, r, a);
  }
}
