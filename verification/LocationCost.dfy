/** The shape of the built tree and what a lookup in it costs. */
module LocationCost {
  import opened Bytes
  import opened FilenameOrder
  import opened LocationSpec
  import opened LocationCompiler
  import opened LocationForest
  import opened LocationTree
  import opened LocationTruncation
  import opened LocationTheorems

  function Log2(n: nat): (l: nat)
    ensures n >= 2 ==> l == 1 + Log2(n / 2)
  {
    if n < 2 then 0 else 1 + Log2(n / 2)
  }

  lemma {:induction false} Log2Monotone(a: nat, b: nat)
    requires a <= b
    ensures Log2(a) <= Log2(b)
    decreases a
  {
    if a >= 2 {
      Log2Monotone(a / 2, b / 2);
    }
  }

  /** Height along `left` and `right`, the edges inside one level. */
  function Height(t: Tree): nat {
    match t
    case Nil => 0
    case Node(_, _, _, _, left, right, _) => 1 + Max(Height(left), Height(right))
  }

  /** The tree of a level of n entries is at most floor(log2 n) + 1 high. */
  lemma {:induction false} LevelHeight(level: seq<Entry>, k: nat)
    requires Reaches(level, k)
    ensures Height(BuildTree(level, k)) <= if level == [] then 0 else Log2(|level|) + 1
    decreases |level|
  {
    hide BuildTree, Reaches, Searchable;
    if level == [] {
      NoNode(k);
    } else {
      var m := Middle(|level|);
      ReachesParts(level, k, m);
      BuiltNode(level, k);
      LevelHeight(level[..m], k);
      LevelHeight(level[m + 1..], k);
      if |level| >= 2 {
        Log2Monotone(|level| - 1 - m, m);
      }
    }
  }

  /** The in-order walk of the tree: the suffixes stored, and the confs, in queue order. */
  function Inorder(t: Tree): seq<(Str, Option<LocConf>, Option<LocConf>)> {
    match t
    case Nil => []
    case Node(_, name, exact, inclusive, left, right, _) =>
      Inorder(left) + [(name, exact, inclusive)] + Inorder(right)
  }

  function Suffixes(level: seq<Entry>, k: nat): seq<(Str, Option<LocConf>, Option<LocConf>)>
    requires Reaches(level, k)
  {
    seq(|level|, i requires 0 <= i < |level| => (level[i].name[k..], level[i].exact, level[i].inclusive))
  }

  lemma SuffixesSplit(level: seq<Entry>, k: nat, m: nat)
    requires Reaches(level, k) && m < |level|
    ensures Suffixes(level, k) ==
            Suffixes(level[..m], k) + [(level[m].name[k..], level[m].exact, level[m].inclusive)]
            + Suffixes(level[m + 1..], k)
  {
  }

  lemma InorderNode(t: Tree)
    requires t.Node?
    ensures Inorder(t) == Inorder(t.left) + [(t.name, t.exact, t.inclusive)] + Inorder(t.right)
  {
  }

  /** The in-order walk of a level's tree is the level. */
  lemma {:induction false} InorderIsLevel(level: seq<Entry>, k: nat)
    requires Reaches(level, k)
    ensures Inorder(BuildTree(level, k)) == Suffixes(level, k)
    decreases |level|
  {
    hide Searchable, BuildTree, Reaches;
    if level == [] {
      NoNode(k);
    } else {
      var m := Middle(|level|);
      ReachesParts(level, k, m);
      BuiltNode(level, k);
      InorderIsLevel(level[..m], k);
      InorderIsLevel(level[m + 1..], k);
      InorderNode(BuildTree(level, k));
      SuffixesSplit(level, k, m);
    }
  }

  /** Number of nodes a search compares with. */
  function Comparisons(t: Tree, rest: Str): nat
    requires Searchable(t)
  {
    match t
    case Nil => 0
    case Node(len, name, exact, inclusive, left, right, tree) =>
      var n := if |rest| <= len then |rest| else len;
      var rc := FilenameCmp(rest, name, n);
      1 + if rc != 0 then Comparisons(if rc < 0 then left else right, rest)
          else if |rest| > len then
            if inclusive.Some? then Comparisons(tree, rest[n..]) else Comparisons(right, rest)
          else if |rest| == len then 0
          else Comparisons(left, rest)
  }

  /** `levels` walks of at most `h` nodes each. */
  function Budget(levels: nat, h: nat): nat {
    if levels == 0 then 0 else h + Budget(levels - 1, h)
  }

  lemma {:induction false} BudgetMonotone(a: nat, b: nat, h: nat)
    requires a <= b
    ensures Budget(a, h) <= Budget(b, h)
    decreases b
  {
    if a < b {
      BudgetMonotone(a, b - 1, h);
    }
  }

  lemma {:induction false} BudgetIsProduct(levels: nat, h: nat)
    ensures Budget(levels, h) == levels * h
    decreases levels
  {
    if levels > 0 {
      BudgetIsProduct(levels - 1, h);
      assert levels * h == (levels - 1) * h + h;
    }
  }

  /** Bytes that a search below this level can still consume by going under an inclusive match. */
  function Descents(p: Option<Str>, rest: Str): nat {
    if p.None? || rest == [] then |rest| else |rest| - 1
  }

  lemma FlatSizes(level: seq<Entry>, m: nat)
    requires m < |level|
    ensures |Flatten(level[..m])| <= |Flatten(level)| && |Flatten(level[m + 1..])| <= |Flatten(level)|
    ensures |Flatten(level[m].list)| <= |Flatten(level)|
  {
    FlattenAt(level, m);
  }

  lemma {:induction false} FlatIsLonger(level: seq<Entry>)
    ensures |level| <= |Flatten(level)|
    decreases |level|
  {
    if level != [] {
      FlatIsLonger(level[1..]);
    }
  }

  /** What a search costs at a node, from what it costs in the subtrees. */
  lemma CostStep(t: Tree, rest: Str, b: nat)
    requires t.Node? && Searchable(t)
    requires Comparisons(t.left, rest) <= Height(t.left) + b && Comparisons(t.right, rest) <= Height(t.right) + b
    requires |rest| > t.len ==> Comparisons(t.tree, rest[t.len..]) <= b
    ensures Comparisons(t, rest) <= Height(t) + b
  {
  }

  /** A search in the level's tree costs the tree's height and at most `b` more. */
  ghost predicate CheapAt(level: seq<Entry>, k: nat, rest: Str, b: nat)
    requires Reaches(level, k)
  {
    Comparisons(BuildTree(level, k), rest) <= Height(BuildTree(level, k)) + b
  }

  /** What the tree of a level whose first `k` bytes were consumed stores as the length of an entry's suffix. */
  function Stored(e: Entry, k: nat): (len: nat)
    requires k <= |e.name|
    ensures len < 256
  {
    (|e.name| - k) % 256
  }

  ghost predicate CheapUnder(e: Entry, k: nat, rest: Str, b: nat)
    requires k <= |e.name| && Reaches(e.list, |e.name|)
  {
    |rest| > Stored(e, k) ==> Comparisons(BuildTree(e.list, |e.name|), rest[Stored(e, k)..]) <= b
  }

  /** Every stored length below the top level is positive. */
  ghost predicate Advances(level: seq<Entry>, p: Option<Str>)
    decreases level
  {
    forall i :: 0 <= i < |level| ==>
      && PrefixLen(p) <= |level[i].name| && (p.Some? ==> Stored(level[i], PrefixLen(p)) > 0)
      && Advances(level[i].list, Some(level[i].name))
  }

  lemma AdvancesParts(level: seq<Entry>, p: Option<Str>, m: nat)
    requires Advances(level, p) && m < |level|
    ensures PrefixLen(p) <= |level[m].name| && (p.Some? ==> Stored(level[m], PrefixLen(p)) > 0)
    ensures Advances(level[m].list, Some(level[m].name)) && Advances(level[..m], p) && Advances(level[m + 1..], p)
  {
    hide Stored;
  }

  lemma CheapRoot(level: seq<Entry>, k: nat, rest: Str, b: nat)
    requires Reaches(level, k) && level != []
    requires var m := Middle(|level|);
             && k <= |level[m].name|
             && CheapAt(level[..m], k, rest, b) && CheapAt(level[m + 1..], k, rest, b)
             && CheapUnder(level[m], k, rest, b)
    ensures CheapAt(level, k, rest, b)
  {
    hide BuildTree, FilenameCmp;
    BuiltNode(level, k);
    CostStep(BuildTree(level, k), rest, b);
  }

  lemma {:induction false} CostWithin(level: seq<Entry>, p: Option<Str>, rest: Str, h: nat)
    requires Level(level, p) && Reaches(level, PrefixLen(p)) && Advances(level, p)
    requires p.Some? ==> rest != []
    requires Log2(|Flatten(level)|) + 1 <= h
    ensures CheapAt(level, PrefixLen(p), rest, Budget(Descents(p, rest), h))
    decreases level, 1
  {
    if level != [] {
      var m := Middle(|level|);
      CostLeftRight(level, p, m, rest, h);
      CostRootList(level, p, m, rest, h);
      CheapRoot(level, PrefixLen(p), rest, Budget(Descents(p, rest), h));
    }
  }

  lemma {:induction false} CostLeftRight(level: seq<Entry>, p: Option<Str>, m: nat, rest: Str, h: nat)
    requires Level(level, p) && Reaches(level, PrefixLen(p)) && Advances(level, p)
    requires p.Some? ==> rest != []
    requires Log2(|Flatten(level)|) + 1 <= h && m < |level|
    ensures CheapAt(level[..m], PrefixLen(p), rest, Budget(Descents(p, rest), h))
    ensures CheapAt(level[m + 1..], PrefixLen(p), rest, Budget(Descents(p, rest), h))
    decreases level, 0
  {
    hide Flatten, WellNamed, CheapAt;
    FlatSizes(level, m);
    AdvancesParts(level, p, m);
    Log2Monotone(|Flatten(level[..m])|, |Flatten(level)|);
    Log2Monotone(|Flatten(level[m + 1..])|, |Flatten(level)|);
    SliceOfLevel(level, p, 0, m);
    SliceOfLevel(level, p, m + 1, |level|);
    CostWithin(level[..m], p, rest, h);
    CostWithin(level[m + 1..], p, rest, h);
  }

  lemma {:induction false} CostRootList(level: seq<Entry>, p: Option<Str>, m: nat, rest: Str, h: nat)
    requires Level(level, p) && Reaches(level, PrefixLen(p)) && Advances(level, p)
    requires Log2(|Flatten(level)|) + 1 <= h && m < |level|
    ensures PrefixLen(p) <= |level[m].name|
    ensures CheapUnder(level[m], PrefixLen(p), rest, Budget(Descents(p, rest), h))
    decreases level, 0
  {
    hide Rank, SlashLow, Flatten, StrictlySorted;
    hide WellNamed;
    var e := level[m];
    FlatSizes(level, m);
    Log2Monotone(|Flatten(e.list)|, |Flatten(level)|);
    assert Below(p, e.name) && Level(e.list, Some(e.name));
    AdvancesParts(level, p, m);
    if |rest| > Stored(e, PrefixLen(p)) {
      CostUnder(e, p, rest, h);
    }
  }

  lemma {:induction false} CostUnder(e: Entry, p: Option<Str>, rest: Str, h: nat)
    requires Level(e.list, Some(e.name)) && Reaches(e.list, |e.name|) && Advances(e.list, Some(e.name))
    requires Below(p, e.name) && |rest| > Stored(e, PrefixLen(p)) && (p.Some? ==> Stored(e, PrefixLen(p)) > 0)
    requires Log2(|Flatten(e.list)|) + 1 <= h
    ensures Comparisons(BuildTree(e.list, |e.name|), rest[Stored(e, PrefixLen(p))..]) <= Budget(Descents(p, rest), h)
    decreases e.list, 2
  {
    hide Level, Reaches, BuildTree, Advances, PrefixFree, Stored;
    var rest' := rest[Stored(e, PrefixLen(p))..];
    CostWithin(e.list, Some(e.name), rest', h);
    LevelHeight(e.list, |e.name|);
    FlatIsLonger(e.list);
    Log2Monotone(|e.list|, |Flatten(e.list)|);
    var t := BuildTree(e.list, |e.name|);
    BudgetMonotone(1 + Descents(Some(e.name), rest'), Descents(p, rest), h);
  }

  /** (|uri| + 1) * (floor(log2 n) + 1) */
  function CostBound(uriLen: nat, n: nat): nat {
    (uriLen + 1) * (Log2(n) + 1)
  }

  lemma ForestCost(forest: seq<Entry>, uri: Str)
    requires Level(forest, None) && Reaches(forest, 0) && Advances(forest, None)
    ensures Comparisons(BuildTree(forest, 0), uri) <= Budget(|uri| + 1, Log2(|Flatten(forest)|) + 1)
  {
    hide BuildTree, Level;
    var h := Log2(|Flatten(forest)|) + 1;
    CostWithin(forest, None, uri, h);
    LevelHeight(forest, 0);
    FlatIsLonger(forest);
    Log2Monotone(|forest|, |Flatten(forest)|);
  }

  lemma WithinBound(cost: nat, uriLen: nat, n: nat)
    requires cost <= Budget(uriLen + 1, Log2(n) + 1)
    ensures cost <= CostBound(uriLen, n)
  {
    BudgetIsProduct(uriLen + 1, Log2(n) + 1);
  }

  lemma ForestBound(forest: seq<Entry>, uri: Str)
    requires Level(forest, None) && Reaches(forest, 0) && Advances(forest, None)
    ensures Comparisons(BuildTree(forest, 0), uri) <= CostBound(|uri|, |Flatten(forest)|)
  {
    hide Flatten, Level;
    ForestCost(forest, uri);
    WithinBound(Comparisons(BuildTree(forest, 0), uri), |uri|, |Flatten(forest)|);
  }

  // ----- the condition, read off the declarations

  /** `d` is the longest inclusive name that is a proper prefix of the one of `e`. */
  ghost predicate Nearest(flat: seq<Entry>, e: Entry, d: Entry) {
    && d in flat && d.inclusive.Some? && d.name < e.name
    && forall x :: x in flat && x.inclusive.Some? && x.name < e.name ==> |x.name| <= |d.name|
  }

  ghost predicate Clear(e: Entry, d: Entry) {
    (|e.name| - |d.name|) % 256 != 0
  }

  /** The one above in the forest is the nearest. */
  lemma NearestAbove(level: seq<Entry>, p: Option<Str>, i: nat, j: nat)
    requires Level(level, p) && i < |level| && j < |level[i].list|
    ensures Nearest(Flatten(level), level[i].list[j].(list := []), level[i].(list := []))
    ensures level[i].list[j].(list := []) in Flatten(level)
  {
    hide Flatten, WellNamed;
    var list, e := level[i].list, level[i].list[j];
    PartsOfFlatten(level, i);
    PartsOfFlatten(list, j);
    assert Below(Some(level[i].name), e.name);
    forall x | x in Flatten(level) && x.inclusive.Some? && x.name < e.name ensures |x.name| <= |level[i].name| {
      var k := FlattenUnderTop(level, p, x);
      SameTop(level, p, i, k, e.name);
      if x in Flatten(list) {
        NothingAboveTop(list, Some(level[i].name), j, x);
      }
    }
  }

  /** The nearest within a list is the nearest of all. */
  lemma NearestInList(level: seq<Entry>, p: Option<Str>, i: nat, e: Entry, d: Entry)
    requires Level(level, p) && i < |level| && e in Flatten(level[i].list) && Nearest(Flatten(level[i].list), e, d)
    ensures e in Flatten(level) && Nearest(Flatten(level), e, d)
  {
    hide Flatten, WellNamed;
    var list := level[i].list;
    PartsOfFlatten(level, i);
    UnderRoot(level[i], e);
    var j := FlattenUnderTop(list, Some(level[i].name), e);
    UnderIsLonger(level[i]);
    assert level[i].name < d.name by {
      UnderRoot(level[i], d);
    }
    forall x | x in Flatten(level) && x.inclusive.Some? && x.name < e.name ensures |x.name| <= |d.name| {
      var k := FlattenUnderTop(level, p, x);
      SameTop(level, p, i, k, e.name);
    }
  }

  lemma {:induction false} ClearAdvances(level: seq<Entry>, p: Option<Str>)
    requires Level(level, p)
    requires forall i :: 0 <= i < |level| ==>
             PrefixLen(p) <= |level[i].name| && (p.Some? ==> Stored(level[i], PrefixLen(p)) > 0)
    requires forall e, d :: e in Flatten(level) && Nearest(Flatten(level), e, d) ==> Clear(e, d)
    ensures Advances(level, p)
    decreases level
  {
    hide Flatten, Nearest, WellNamed;
    forall i | 0 <= i < |level| ensures Advances(level[i].list, Some(level[i].name)) {
      var list := level[i].list;
      forall j | 0 <= j < |list| ensures |level[i].name| <= |list[j].name| && Stored(list[j], |level[i].name|) > 0 {
        NearestAbove(level, p, i, j);
        assert Clear(list[j].(list := []), level[i].(list := []));
        assert Below(Some(level[i].name), list[j].name);
      }
      forall e, d | e in Flatten(list) && Nearest(Flatten(list), e, d) ensures Clear(e, d) {
        NearestInList(level, p, i, e, d);
      }
      ClearAdvances(list, Some(level[i].name));
    }
  }

  /**
   No static name is longer by a multiple of 256 bytes than the longest declared inclusive prefix of it: such a
   suffix would be stored with length zero, and a search would go under it without getting on in the URI.
   */
  ghost predicate NoneVanishes(decls: seq<LocConf>) {
    forall c, d :: c in ExactConfs(decls) + PrefixConfs(decls) && NearestConf(decls, c, d) ==>
      (|c.name| - |d.name|) % 256 != 0
  }

  ghost predicate NearestConf(decls: seq<LocConf>, c: LocConf, d: LocConf) {
    && d in PrefixConfs(decls) && d.name < c.name
    && forall x :: x in PrefixConfs(decls) && x.name < c.name ==> |x.name| <= |d.name|
  }

  /** Declarations whose suffixes fit are among these. */
  lemma FittingNeverVanish(decls: seq<LocConf>)
    requires AllFitInByte(decls)
    ensures NoneVanishes(decls)
  {
  }

  lemma AdvancingForest(decls: seq<LocConf>)
    requires NulFreeDecls(decls) && Joined(decls).Some? && NoneVanishes(decls)
    ensures Level(ForestOf(decls), None) && Reaches(ForestOf(decls), 0) && Advances(ForestOf(decls), None)
    ensures Flatten(ForestOf(decls)) == Joined(decls).value
  {
    hide Joined, Flatten;
    BuildsIffDuplicateFree(decls);
    var forest := ForestOf(decls);
    var flat := Flatten(forest);
    forall e | e in flat ensures WellNamed(e) {
      var i := FlattenUnderTop(forest, None, e);
    }
    forall e, d | e in flat && Nearest(flat, e, d) ensures Clear(e, d) {
      var c, x := ConfOf(e), d.inclusive.value;
      assert c in ExactsOf(flat) + PrefixesOf(flat) && x in PrefixesOf(flat);
      forall y | y in PrefixConfs(decls) && y.name < c.name ensures |y.name| <= |x.name| {
        var z :| z in flat && z.inclusive == Some(y);
        assert z.name == y.name;
      }
      assert NearestConf(decls, c, x);
    }
    ClearAdvances(forest, None);
  }

  /** A lookup compares at most (|uri| + 1) * (floor(log2 N) + 1) nodes, N the number of joined locations. */
  lemma LookupCost(decls: seq<LocConf>, uri: Str)
    requires NulFreeDecls(decls) && Joined(decls).Some? && NoneVanishes(decls)
    ensures Reaches(ForestOf(decls), 0)
    ensures Comparisons(StaticTreeOf(decls), uri) <= CostBound(|uri|, |Joined(decls).value|)
  {
    AdvancingForest(decls);
    ForestBound(ForestOf(decls), uri);
  }
}
