/**
 The balanced tree of name suffixes (create_locations_tree), the search in it (find_static_location), and the
 proof that the search finds what the flattened queue prescribes.
 */
module LocationTree {
  import opened Bytes
  import opened FilenameOrder
  import opened LocationSpec
  import opened LocationCompiler
  import opened LocationForest

  function PrefixLen(p: Option<Str>): nat {
    match p
    case None => 0
    case Some(s) => |s|
  }

  /** Every entry has a conf and a name that reaches past the prefix consumed at its level. */
  ghost predicate Reaches(level: seq<Entry>, k: nat)
    decreases level
  {
    forall i :: 0 <= i < |level| ==>
      HasConf(level[i]) && k <= |level[i].name| && Reaches(level[i].list, |level[i].name|)
  }

  /** ngx_queue_middle: the middle element, the first of the second half if the queue is even. */
  function Middle(n: nat): (m: nat)
    requires n > 0
    ensures m < n
  {
    n / 2
  }

  predicate Searchable(t: Tree) {
    t.Node? ==>
      && t.len <= |t.name| && (t.exact.Some? || t.inclusive.Some?)
      && Searchable(t.left) && Searchable(t.right) && Searchable(t.tree)
  }

  /** The tree for a level whose first `k` name bytes were consumed above; `len` is stored in one byte. */
  function BuildTree(level: seq<Entry>, k: nat): (t: Tree)
    requires Reaches(level, k)
    ensures Searchable(t)
    decreases level
  {
    if level == [] then Nil
    else
      var m := Middle(|level|);
      var e := level[m];
      Node((|e.name| - k) % 256, e.name[k..], e.exact, e.inclusive,
           BuildTree(level[..m], k), BuildTree(level[m + 1..], k), BuildTree(e.list, |e.name|))
  }

  /** The root of a level's tree and its three subtrees. */
  lemma BuiltNode(level: seq<Entry>, k: nat)
    requires Reaches(level, k) && level != []
    ensures var m := Middle(|level|);
            var e := level[m];
            var t := BuildTree(level, k);
            && t.Node? && t.len == (|e.name| - k) % 256 && t.name == e.name[k..]
            && t.exact == e.exact && t.inclusive == e.inclusive
            && t.left == BuildTree(level[..m], k) && t.right == BuildTree(level[m + 1..], k)
            && t.tree == BuildTree(e.list, |e.name|)
  {
  }

  lemma ReachesParts(level: seq<Entry>, k: nat, m: nat)
    requires Reaches(level, k) && m < |level|
    ensures k <= |level[m].name| && HasConf(level[m]) && Reaches(level[m].list, |level[m].name|)
    ensures Reaches(level[..m], k) && Reaches(level[m + 1..], k)
  {
  }

  lemma NoNode(k: nat)
    ensures BuildTree([], k) == Nil
  {
  }

  /** Every suffix stored for the level, and below it, fits in a u_char. */
  ghost predicate SuffixesFit(level: seq<Entry>, k: nat)
    decreases level
  {
    forall i :: 0 <= i < |level| ==> |level[i].name| - k < 256 && SuffixesFit(level[i].list, |level[i].name|)
  }

  /** The search: `rest` is what is left of the URI, `rv` the best match so far. */
  function Search(t: Tree, rest: Str, rv: StaticMatch): StaticMatch
    requires Searchable(t)
  {
    match t
    case Nil => rv
    case Node(len, name, exact, inclusive, left, right, tree) =>
      var n := if |rest| <= len then |rest| else len;
      var rc := FilenameCmp(rest, name, n);
      if rc != 0 then Search(if rc < 0 then left else right, rest, rv)
      else if |rest| > len then
        if inclusive.Some? then Search(tree, rest[n..], Inclusive(inclusive.value))
        else Search(right, rest, rv)
      else if |rest| == len then
        if exact.Some? then Exact(exact.value) else Inclusive(inclusive.value)
      else Search(left, rest, rv)
  }

  lemma {:induction false} LevelReaches(level: seq<Entry>, p: Option<Str>)
    requires Level(level, p)
    ensures Reaches(level, PrefixLen(p))
    decreases level
  {
    forall i | 0 <= i < |level|
      ensures HasConf(level[i]) && PrefixLen(p) <= |level[i].name| && Reaches(level[i].list, |level[i].name|)
    {
      assert Below(p, level[i].name);
      LevelReaches(level[i].list, Some(level[i].name));
    }
  }

  lemma SliceOfLevel(level: seq<Entry>, p: Option<Str>, lo: nat, hi: nat)
    requires Level(level, p) && lo <= hi <= |level|
    ensures Level(level[lo..hi], p)
  {
    var part := level[lo..hi];
    forall i, j | 0 <= i < |part| && 0 <= j < |part| && i != j && part[i].inclusive.Some?
      ensures !(part[i].name <= part[j].name)
    {
      assert part[i] == level[lo + i] && part[j] == level[lo + j];
    }
  }

  // ----- what a search should return, over the flattened queue

  /** The entry has something to say about the URI. */
  predicate Relevant(e: Entry, uri: Str) {
    (e.exact.Some? && e.name == uri) || (e.inclusive.Some? && e.name <= uri)
  }

  ghost predicate NoneRelevant(flat: seq<Entry>, uri: Str) {
    forall e :: e in flat ==> !Relevant(e, uri)
  }

  ghost predicate LongestIn(flat: seq<Entry>, uri: Str, e: Entry) {
    && e in flat && e.name <= uri
    && (forall d :: d in flat && d.inclusive.Some? && d.name <= uri ==> |d.name| <= |e.name|)
  }

  ghost predicate AnswerIn(flat: seq<Entry>, uri: Str, r: StaticMatch) {
    match r
    case Exact(c) => exists e :: e in flat && e.name == uri && e.exact == Some(c)
    case Inclusive(c) =>
      && (forall e :: e in flat && e.name == uri ==> e.exact.None?)
      && (exists e :: LongestIn(flat, uri, e) && e.inclusive == Some(c))
    case NoMatch => false
  }

  /** `r` is the answer of `flat`, or the earlier answer `rv` when `flat` has none. */
  ghost predicate Finds(flat: seq<Entry>, uri: Str, rv: StaticMatch, r: StaticMatch) {
    if NoneRelevant(flat, uri) then r == rv else AnswerIn(flat, uri, r)
  }

  /** Irrelevant entries on both sides do not matter. */
  lemma FindsInContext(a: seq<Entry>, b: seq<Entry>, c: seq<Entry>, uri: Str, rv: StaticMatch, r: StaticMatch)
    requires NoneRelevant(a, uri) && NoneRelevant(c, uri) && Finds(b, uri, rv, r)
    ensures Finds(a + b + c, uri, rv, r)
  {
    var flat := a + b + c;
    if NoneRelevant(b, uri) {
      assert NoneRelevant(flat, uri);
    } else {
      var x :| x in b && Relevant(x, uri);
      assert x in flat;
      match r
      case Exact(k) =>
        var e :| e in b && e.name == uri && e.exact == Some(k);
        assert e in flat;
      case Inclusive(k) =>
        var e :| LongestIn(b, uri, e) && e.inclusive == Some(k);
        assert LongestIn(flat, uri, e) by {
          forall d | d in flat && d.inclusive.Some? && d.name <= uri ensures |d.name| <= |e.name| {
            assert Relevant(d, uri);
          }
        }
        forall d | d in flat && d.name == uri ensures d.exact.None? {
          if d.exact.Some? {
            assert Relevant(d, uri);
          }
        }
      case NoMatch =>
    }
  }

  /** An inclusive match is the answer unless something under it is. */
  lemma FindsUnderInclusive(e: Entry, under: seq<Entry>, uri: Str, rv: StaticMatch, r: StaticMatch)
    requires e.inclusive.Some? && e.name <= uri && e.name != uri
    requires forall d :: d in under ==> |e.name| < |d.name|
    requires Finds(under, uri, Inclusive(e.inclusive.value), r)
    ensures Finds([e] + under, uri, rv, r)
  {
    var flat := [e] + under;
    assert e in flat && Relevant(e, uri);
    if NoneRelevant(under, uri) {
      assert LongestIn(flat, uri, e) by {
        forall d | d in flat && d.inclusive.Some? && d.name <= uri ensures |d.name| <= |e.name| {
          assert Relevant(d, uri);
        }
      }
      forall d | d in flat && d.name == uri ensures d.exact.None? {
        assert d in under && !Relevant(d, uri);
      }
    } else {
      match r
      case Exact(k) =>
        var x :| x in under && x.name == uri && x.exact == Some(k);
        assert x in flat;
      case Inclusive(k) =>
        var x :| LongestIn(under, uri, x) && x.inclusive == Some(k);
        assert LongestIn(flat, uri, x);
      case NoMatch =>
    }
  }

  lemma {:induction false} FlattenUnderTop(level: seq<Entry>, p: Option<Str>, e: Entry) returns (i: nat)
    requires Level(level, p) && e in Flatten(level)
    ensures i < |level| && level[i].name <= e.name
    ensures if level[i].name == e.name then e == level[i].(list := []) else level[i].inclusive.Some?
    ensures WellNamed(e) && e.list == []
    ensures e == level[i].(list := []) || e in Flatten(level[i].list)
    decreases level
  {
    if e == level[0].(list := []) {
      i := 0;
      assert WellNamed(level[0]);
    } else if e in Flatten(level[0].list) {
      i := 0;
      var j := FlattenUnderTop(level[0].list, Some(level[0].name), e);
      assert Below(Some(level[0].name), level[0].list[j].name);
    } else {
      SliceOfLevel(level, p, 1, |level|);
      i := FlattenUnderTop(level[1..], p, e);
      i := i + 1;
    }
  }

  lemma UnderIsLonger(e: Entry)
    requires Level(e.list, Some(e.name))
    ensures forall d :: d in Flatten(e.list) ==> |e.name| < |d.name|
  {
    forall d | d in Flatten(e.list) ensures |e.name| < |d.name| {
      var j := FlattenUnderTop(e.list, Some(e.name), d);
      assert Below(Some(e.name), e.list[j].name);
    }
  }

  lemma PrefixNotAfter(a: Str, uri: Str)
    requires a <= uri
    ensures !Before(uri, a)
  {
    if a == uri {
      BeforeIrreflexive(a);
    } else {
      PrefixBefore(a, uri);
      BeforeAsymmetric(a, uri);
    }
  }

  /** A URI before a name has nothing to find at that name or after it. */
  lemma NothingFrom(level: seq<Entry>, p: Option<Str>, m: nat, uri: Str)
    requires Level(level, p) && m < |level| && Before(uri, level[m].name)
    ensures NoneRelevant(Flatten(level[m..]), uri)
  {
    var part := level[m..];
    SliceOfLevel(level, p, m, |level|);
    forall e | e in Flatten(part) ensures !Relevant(e, uri) {
      var i := FlattenUnderTop(part, p, e);
      if i > 0 {
        BeforeTransitive(uri, level[m].name, part[i].name);
      }
      if e.name <= uri {
        PrefixNotAfter(part[i].name, uri);
        assert false;
      }
    }
  }

  /** A URI after a name has nothing to find before that name. */
  lemma NothingBefore(level: seq<Entry>, p: Option<Str>, m: nat, uri: Str)
    requires Level(level, p) && m < |level| && Before(level[m].name, uri)
    ensures NoneRelevant(Flatten(level[..m]), uri)
  {
    var part := level[..m];
    SliceOfLevel(level, p, 0, m);
    forall e | e in Flatten(part) ensures !Relevant(e, uri) {
      var i := FlattenUnderTop(part, p, e);
      assert part[i] == level[i];
      if e.name <= uri {
        PrefixContiguous(part[i].name, level[m].name, uri);
        BeforeAsymmetric(part[i].name, level[m].name);
        BeforeAsymmetric(level[m].name, uri);
      }
    }
  }

  /** Under an inclusive match nothing after that entry is relevant. */
  lemma NothingAfterInclusive(level: seq<Entry>, p: Option<Str>, m: nat, uri: Str)
    requires Level(level, p) && m < |level| && level[m].inclusive.Some? && level[m].name <= uri
    ensures NoneRelevant(Flatten(level[m + 1..]), uri)
  {
    var part := level[m + 1..];
    SliceOfLevel(level, p, m + 1, |level|);
    forall e | e in Flatten(part) ensures !Relevant(e, uri) {
      var i := FlattenUnderTop(part, p, e);
      assert part[i] == level[m + 1 + i];
      if e.name <= uri {
        if part[i].name != uri {
          PrefixBefore(part[i].name, uri);
          PrefixContiguous(level[m].name, part[i].name, uri);
        }
        assert false;
      }
    }
  }

  // ----- the search finds it

  /** What comparing the rest of a URI with a stored suffix says about the whole names. */
  lemma CompareAt(uri: Str, name: Str, k: nat)
    requires k <= |uri| && k <= |name| && uri[..k] == name[..k] && NulFree(name)
    ensures var n := Min(|uri| - k, |name| - k);
            var rc := FilenameCmp(uri[k..], name[k..], n);
            && (rc < 0 ==> Before(uri, name))
            && (rc > 0 ==> Before(name, uri) && !(name <= uri))
            && (rc == 0 ==> if |uri| < |name| then Before(uri, name) else name <= uri)
  {
    hide Before, FilenameCmp;
    var p, u, s := uri[..k], uri[k..], name[k..];
    var n := Min(|u|, |s|);
    assert uri == p + u && name == p + s;
    assert NulFree(s) by { assert forall b :: b in s ==> b in name; }
    CmpPrefix(u, s, n);
    BeforeUnderPrefix(p, u, s);
    BeforeUnderPrefix(p, s, u);
    if FilenameCmp(u, s, n) == 0 {
      if |u| < |s| {
        assert u == s[..n];
        PrefixBefore(u, s);
      } else {
        assert name == p + u[..n] == uri[..|name|];
      }
    } else {
      PrefixUnder(p, s, u);
    }
  }

  lemma PrefixUnder(p: Str, a: Str, b: Str)
    ensures p + a <= p + b <==> a <= b
  {
    if p + a <= p + b {
      assert a == (p + a)[|p|..] == (p + b)[|p|..|p + a|] == b[..|a|];
    }
  }

  lemma FlattenSplit(level: seq<Entry>, m: nat)
    requires m <= |level|
    ensures Flatten(level) == Flatten(level[..m]) + Flatten(level[m..])
  {
    assert level == level[..m] + level[m..];
    FlattenConcat(level[..m], level[m..]);
  }

  /** The entry and everything under it. */
  function Family(e: Entry): seq<Entry> {
    [e.(list := [])] + Flatten(e.list)
  }

  lemma FlattenAt(level: seq<Entry>, m: nat)
    requires m < |level|
    ensures Flatten(level) == Flatten(level[..m]) + (Family(level[m]) + Flatten(level[m + 1..]))
  {
    FlattenSplit(level, m);
    FlattenFrom(level[m..]);
    assert level[m..][1..] == level[m + 1..];
  }

  lemma FlattenFrom(level: seq<Entry>)
    requires level != []
    ensures Flatten(level) == Family(level[0]) + Flatten(level[1..])
  {
  }

  /** The entry at hand and what is under it say nothing about a URI that does not extend its name. */
  lemma NothingAt(e: Entry, uri: Str)
    requires WellNamed(e) && Level(e.list, Some(e.name)) && (e.list != [] ==> e.inclusive.Some?)
    requires !(e.name <= uri) || (e.inclusive.None? && e.name != uri)
    ensures NoneRelevant(Family(e), uri)
  {
    forall d | d in Family(e) ensures !Relevant(d, uri) {
      if d in Flatten(e.list) {
        var j := FlattenUnderTop(e.list, Some(e.name), d);
        assert Below(Some(e.name), e.list[j].name);
        assert e.name <= d.name;
      }
    }
  }

  lemma FindsBefore(b: seq<Entry>, c: seq<Entry>, uri: Str, rv: StaticMatch, r: StaticMatch)
    requires NoneRelevant(c, uri) && Finds(b, uri, rv, r)
    ensures Finds(b + c, uri, rv, r)
  {
    hide Finds;
    FindsInContext([], b, c, uri, rv, r);
    assert [] + b + c == b + c;
  }

  lemma FindsAfter(a: seq<Entry>, b: seq<Entry>, c: seq<Entry>, uri: Str, rv: StaticMatch, r: StaticMatch)
    requires NoneRelevant(a, uri) && NoneRelevant(b, uri) && Finds(c, uri, rv, r)
    ensures Finds(a + (b + c), uri, rv, r)
  {
    hide Finds;
    FindsInContext(a + b, c, [], uri, rv, r);
    assert a + b + c + [] == a + (b + c);
  }

  lemma FindsBetween(a: seq<Entry>, b: seq<Entry>, c: seq<Entry>, uri: Str, rv: StaticMatch, r: StaticMatch)
    requires NoneRelevant(a, uri) && NoneRelevant(c, uri) && Finds(b, uri, rv, r)
    ensures Finds(a + (b + c), uri, rv, r)
  {
    FindsInContext(a, b, c, uri, rv, r);
    assert a + b + c == a + (b + c);
  }

  lemma GoLeft(level: seq<Entry>, p: Option<Str>, m: nat, uri: Str, rv: StaticMatch, r: StaticMatch)
    requires Level(level, p) && m < |level| && Before(uri, level[m].name)
    requires Finds(Flatten(level[..m]), uri, rv, r)
    ensures Finds(Flatten(level), uri, rv, r)
  {
    NothingFrom(level, p, m, uri);
    FlattenSplit(level, m);
    FindsBefore(Flatten(level[..m]), Flatten(level[m..]), uri, rv, r);
  }

  lemma GoRight(level: seq<Entry>, p: Option<Str>, m: nat, uri: Str, rv: StaticMatch, r: StaticMatch)
    requires Level(level, p) && m < |level| && Before(level[m].name, uri)
    requires !(level[m].name <= uri) || level[m].inclusive.None?
    requires Finds(Flatten(level[m + 1..]), uri, rv, r)
    ensures Finds(Flatten(level), uri, rv, r)
  {
    NothingBefore(level, p, m, uri);
    BeforeAsymmetric(level[m].name, uri);
    NothingAt(level[m], uri);
    FlattenAt(level, m);
    FindsAfter(Flatten(level[..m]), Family(level[m]), Flatten(level[m + 1..]), uri, rv, r);
  }

  lemma GoUnder(level: seq<Entry>, p: Option<Str>, m: nat, uri: Str, rv: StaticMatch, r: StaticMatch)
    requires Level(level, p) && m < |level| && level[m].name <= uri && level[m].name != uri
    requires level[m].inclusive.Some?
    requires Finds(Flatten(level[m].list), uri, Inclusive(level[m].inclusive.value), r)
    ensures Finds(Flatten(level), uri, rv, r)
  {
    var e := level[m];
    PrefixBefore(e.name, uri);
    NothingBefore(level, p, m, uri);
    NothingAfterInclusive(level, p, m, uri);
    UnderIsLonger(e);
    FindsUnderInclusive(e.(list := []), Flatten(e.list), uri, rv, r);
    FlattenAt(level, m);
    FindsBetween(Flatten(level[..m]), Family(e), Flatten(level[m + 1..]), uri, rv, r);
  }

  lemma StopHere(level: seq<Entry>, p: Option<Str>, m: nat, uri: Str, rv: StaticMatch)
    requires Level(level, p) && m < |level| && level[m].name == uri && HasConf(level[m])
    ensures var e := level[m];
            Finds(Flatten(level), uri, rv,
                  if e.exact.Some? then Exact(e.exact.value) else Inclusive(e.inclusive.value))
  {
    var e := level[m];
    var top := e.(list := []);
    FlattenAt(level, m);
    var flat := Flatten(level);
    assert top in flat && Relevant(top, uri);
    if e.exact.None? {
      forall d | d in flat && d.name == uri ensures d == top {
        OneEntryPerName(level, p, m, d);
      }
      assert LongestIn(flat, uri, top);
    }
  }

  lemma OneEntryPerName(level: seq<Entry>, p: Option<Str>, m: nat, d: Entry)
    requires Level(level, p) && m < |level| && d in Flatten(level) && d.name == level[m].name
    ensures d == level[m].(list := [])
  {
    var i := FlattenUnderTop(level, p, d);
    if i < m {
      BeforeIrreflexive(d.name);
    } else if i > m {
      LaterIsNoPrefix(level[m].name, level[i].name);
    }
  }

  /** What a level says about its entries, and what its parts keep. */
  lemma RootFacts(level: seq<Entry>, p: Option<Str>, m: nat)
    requires Level(level, p) && Reaches(level, PrefixLen(p)) && m < |level|
    ensures var e := level[m];
            && WellNamed(e) && NulFree(e.name) && Below(p, e.name) && Level(e.list, Some(e.name))
            && Reaches(e.list, |e.name|)
    ensures Level(level[..m], p) && Reaches(level[..m], PrefixLen(p))
    ensures Level(level[m + 1..], p) && Reaches(level[m + 1..], PrefixLen(p))
  {
    SliceOfLevel(level, p, 0, m);
    SliceOfLevel(level, p, m + 1, |level|);
  }

  lemma FitParts(level: seq<Entry>, k: nat, m: nat)
    requires SuffixesFit(level, k) && m < |level|
    ensures |level[m].name| - k < 256 && SuffixesFit(level[m].list, |level[m].name|)
    ensures SuffixesFit(level[..m], k) && SuffixesFit(level[m + 1..], k)
  {
  }

  lemma NothingToFind(uri: Str, k: nat, rv: StaticMatch)
    requires k <= |uri|
    ensures Finds(Flatten([]), uri, rv, Search(BuildTree([], k), uri[k..], rv))
  {
  }

  ghost predicate AtPrefix(p: Option<Str>, uri: Str) {
    match p
    case None => true
    case Some(s) => s <= uri
  }

  /** One comparison of the search, read as a statement about whole names. */
  lemma SearchStep(t: Tree, name: Str, k: nat, uri: Str, rv: StaticMatch)
    requires t.Node? && Searchable(t) && k <= |uri| && k <= |name|
    requires t.len == |name| - k && t.name == name[k..]
    requires uri[..k] == name[..k] && NulFree(name)
    ensures var r := Search(t, uri[k..], rv);
            if Before(uri, name) then r == Search(t.left, uri[k..], rv)
            else if uri == name then r == if t.exact.Some? then Exact(t.exact.value) else Inclusive(t.inclusive.value)
            else if name <= uri && t.inclusive.Some? then
              r == Search(t.tree, uri[|name|..], Inclusive(t.inclusive.value))
            else r == Search(t.right, uri[k..], rv) && Before(name, uri)
  {
    hide Searchable, FilenameCmp, Rank;
    CompareAt(uri, name, k);
    var rest, suffix := uri[k..], name[k..];
    var n := Min(|rest|, |suffix|);
    var rc := FilenameCmp(rest, suffix, n);
    if rc == 0 && |name| <= |uri| {
      assert rest[n..] == uri[|name|..];
      PrefixNotAfter(name, uri);
      if uri != name {
        PrefixBefore(name, uri);
        assert |rest| > |suffix|;
      }
    } else if rc > 0 {
      BeforeAsymmetric(name, uri);
    }
  }

  /**
   The search in the tree of a level, from the point the URI is consumed to, returns what the flattened
   level prescribes.
   */
  lemma {:induction false} SearchFinds(level: seq<Entry>, p: Option<Str>, uri: Str, rv: StaticMatch)
    requires Level(level, p) && Reaches(level, PrefixLen(p)) && SuffixesFit(level, PrefixLen(p)) && AtPrefix(p, uri)
    ensures Finds(Flatten(level), uri, rv, Search(BuildTree(level, PrefixLen(p)), uri[PrefixLen(p)..], rv))
    decreases level
  {
    hide Finds, Search, Before, Level, Reaches, SuffixesFit, BuildTree, Searchable, Flatten;
    var k := PrefixLen(p);
    if level == [] {
      NothingToFind(uri, k, rv);
    } else {
      var m := Middle(|level|);
      var e := level[m];
      var r := Search(BuildTree(level, k), uri[k..], rv);
      RootFacts(level, p, m);
      FitParts(level, k, m);
      BuiltNode(level, k);
      SearchStep(BuildTree(level, k), e.name, k, uri, rv);
      if Before(uri, e.name) {
        SearchFinds(level[..m], p, uri, rv);
        GoLeft(level, p, m, uri, rv, r);
      } else if uri == e.name {
        StopHere(level, p, m, uri, rv);
      } else if e.name <= uri && e.inclusive.Some? {
        SearchFinds(e.list, Some(e.name), uri, Inclusive(e.inclusive.value));
        GoUnder(level, p, m, uri, rv, r);
      } else {
        SearchFinds(level[m + 1..], p, uri, rv);
        GoRight(level, p, m, uri, rv, r);
      }
    }
  }
}
