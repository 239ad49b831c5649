/**
 The tree node keeps the length of a suffix in one byte. This module shows that a lookup is right for every URI
 exactly when no stored suffix is longer than that: a longer one always has a URI it answers wrongly.
 */
module LocationTruncation {
  import opened Bytes
  import opened FilenameOrder
  import opened LocationSpec
  import opened LocationCompiler
  import opened LocationForest
  import opened LocationTree

  /** `r` is a conf of an entry of `flat`. */
  ghost predicate ComesFrom(flat: seq<Entry>, r: StaticMatch) {
    r != NoMatch && exists e :: e in flat && (r == FromExact(e) || r == FromInclusive(e))
  }

  function FromExact(e: Entry): StaticMatch {
    if e.exact.Some? then Exact(e.exact.value) else NoMatch
  }

  function FromInclusive(e: Entry): StaticMatch {
    if e.inclusive.Some? then Inclusive(e.inclusive.value) else NoMatch
  }

  lemma ComesFromPart(part: seq<Entry>, flat: seq<Entry>, r: StaticMatch)
    requires ComesFrom(part, r) && forall e :: e in part ==> e in flat
    ensures ComesFrom(flat, r)
  {
    var e :| e in part && (r == FromExact(e) || r == FromInclusive(e));
    assert e in flat;
  }

  lemma PartsOfFlatten(level: seq<Entry>, m: nat)
    requires m < |level|
    ensures forall e :: e in Flatten(level[..m]) ==> e in Flatten(level)
    ensures forall e :: e in Flatten(level[m + 1..]) ==> e in Flatten(level)
    ensures forall e :: e in Flatten(level[m].list) ==> e in Flatten(level)
    ensures level[m].(list := []) in Flatten(level)
  {
    FlattenAt(level, m);
    assert level[m].(list := []) in Family(level[m]);
  }

  /** Whatever the stored lengths, a search answers with a conf of the level or with what it started from. */
  lemma {:induction false} SearchComesFrom(level: seq<Entry>, k: nat, rest: Str, rv: StaticMatch)
    requires Reaches(level, k)
    ensures var r := Search(BuildTree(level, k), rest, rv); r == rv || ComesFrom(Flatten(level), r)
    decreases level
  {
    hide Flatten, FilenameCmp;
    if level != [] {
      var m := Middle(|level|);
      var e := level[m];
      var t := BuildTree(level, k);
      var n := if |rest| <= t.len then |rest| else t.len;
      PartsOfFlatten(level, m);
      var top := e.(list := []);
      var r := Search(t, rest, rv);
      if r == Search(t.left, rest, rv) {
        SearchComesFrom(level[..m], k, rest, rv);
        LiftComesFrom(level[..m], level, rv, r);
      } else if r == Search(t.right, rest, rv) {
        SearchComesFrom(level[m + 1..], k, rest, rv);
        LiftComesFrom(level[m + 1..], level, rv, r);
      } else if e.inclusive.Some? && r == Search(t.tree, rest[n..], Inclusive(e.inclusive.value)) {
        SearchComesFrom(e.list, |e.name|, rest[n..], Inclusive(e.inclusive.value));
        assert FromInclusive(top) == Inclusive(e.inclusive.value);
        LiftComesFrom(e.list, level, Inclusive(e.inclusive.value), r);
      } else {
        assert r == FromExact(top) || r == FromInclusive(top);
      }
    }
  }

  lemma LiftComesFrom(part: seq<Entry>, level: seq<Entry>, rv: StaticMatch, r: StaticMatch)
    requires forall e :: e in Flatten(part) ==> e in Flatten(level)
    requires r == rv || ComesFrom(Flatten(part), r)
    ensures r == rv || ComesFrom(Flatten(level), r)
  {
    if r != rv {
      ComesFromPart(Flatten(part), Flatten(level), r);
    }
  }

  /** A URI as long as the name of `e` and equal to it but perhaps for the last byte. */
  predicate Mimics(uri: Str, e: Entry) {
    |uri| == |e.name| && |uri| > 0 && uri[..|uri| - 1] == e.name[..|uri| - 1]
  }

  /** The result is wrong for `uri`: an exact location of that name is missed, or one that is no prefix is hit. */
  ghost predicate Wrong(flat: seq<Entry>, uri: Str, r: StaticMatch) {
    || (exists e :: e in flat && e.name == uri && e.exact.Some? && r != Exact(e.exact.value))
    || (exists e :: e in flat && !(e.name <= uri) && (r == FromExact(e) || r == FromInclusive(e)) && r != NoMatch)
  }

  lemma WrongInWhole(part: seq<Entry>, flat: seq<Entry>, uri: Str, r: StaticMatch)
    requires Wrong(part, uri, r) && forall e :: e in part ==> e in flat
    ensures Wrong(flat, uri, r)
  {
    if e :| e in part && e.name == uri && e.exact.Some? && r != Exact(e.exact.value) {
      assert e in flat;
    } else {
      var e :| e in part && !(e.name <= uri) && (r == FromExact(e) || r == FromInclusive(e)) && r != NoMatch;
      assert e in flat;
    }
  }

  /** Where the two agree, a shorter name cannot tell them apart. */
  lemma {:induction false} SameSide(u: Str, x: Str, name: Str)
    requires |name| < |u| == |x| && u[..|u| - 1] == x[..|x| - 1]
    ensures Before(u, name) <==> Before(x, name)
    ensures name <= u <==> name <= x
    decreases |name|
  {
    if name != [] {
      assert u[..|u| - 1][0] == u[0] && x[..|x| - 1][0] == x[0];
      assert u[1..][..|u| - 2] == u[..|u| - 1][1..] && x[1..][..|x| - 2] == x[..|x| - 1][1..];
      SameSide(u[1..], x[1..], name[1..]);
      assert name == [name[0]] + name[1..] && u == [u[0]] + u[1..] && x == [x[0]] + x[1..];
    }
  }

  /** An entry in the left part, or under it, comes before the root of the level's tree. */
  lemma LeftEntry(level: seq<Entry>, p: Option<Str>, m: nat, e: Entry)
    requires Level(level, p) && m < |level| && e in Flatten(level[..m])
    ensures Before(e.name, level[m].name)
  {
    SliceOfLevel(level, p, 0, m);
    var i := FlattenUnderTop(level[..m], p, e);
    var d := level[i];
    assert level[..m][i] == d && Before(d.name, level[m].name);
    if e.name != d.name {
      BeforeTotal(e.name, level[m].name);
      if Before(level[m].name, e.name) {
        PrefixContiguous(d.name, level[m].name, e.name);
        assert false;
      }
    }
  }

  /** An entry in the right part, or under it, comes after the root and is not under an inclusive root. */
  lemma RightEntry(level: seq<Entry>, p: Option<Str>, m: nat, e: Entry)
    requires Level(level, p) && m < |level| && e in Flatten(level[m + 1..])
    ensures Before(level[m].name, e.name) && !(level[m].inclusive.Some? && level[m].name <= e.name)
  {
    SliceOfLevel(level, p, m + 1, |level|);
    var i := FlattenUnderTop(level[m + 1..], p, e);
    var d := level[m + 1 + i];
    assert level[m + 1..][i] == d && Before(level[m].name, d.name);
    if e.name != d.name {
      PrefixBefore(d.name, e.name);
      BeforeTransitive(level[m].name, d.name, e.name);
      if level[m].name <= e.name {
        PrefixContiguous(level[m].name, d.name, e.name);
      }
    }
  }

  function OtherByte(b: Byte): (c: Byte)
    ensures c != b
  {
    if b == 0 then 1 else 0
  }

  /** A node whose stored length is shorter than its name takes a URI that agrees that far for a match. */
  lemma CutNodeMatches(t: Tree, rest: Str, rv: StaticMatch)
    requires t.Node? && Searchable(t) && t.len < |rest| && NulFree(t.name) && rest[..t.len] == t.name[..t.len]
    ensures Search(t, rest, rv) ==
            if t.inclusive.Some? then Search(t.tree, rest[t.len..], Inclusive(t.inclusive.value))
            else Search(t.right, rest, rv)
  {
    CmpPrefix(rest, t.name, t.len);
  }

  /** The name itself if an exact location has it, else the name with its last byte changed. */
  function ProbeFor(e: Entry): (uri: Str)
    requires e.name != []
    ensures Mimics(uri, e) && (e.exact.Some? <==> uri == e.name)
  {
    var l := |e.name| - 1;
    var uri := if e.exact.Some? then e.name else e.name[..l] + [OtherByte(e.name[l])];
    assert uri[..l] == e.name[..l] && (e.exact.None? ==> uri[l] != e.name[l]);
    uri
  }

  lemma MimicsPrefix(uri: Str, e: Entry, k: nat, l: nat)
    requires Mimics(uri, e) && k <= l < |uri|
    ensures uri[k..][..l - k] == e.name[k..][..l - k]
  {
    forall i | k <= i < l ensures uri[i] == e.name[i] {
      assert uri[i] == uri[..|uri| - 1][i] && e.name[i] == e.name[..|uri| - 1][i];
    }
  }

  lemma MimicsAtPrefix(uri: Str, e: Entry, p: Option<Str>)
    requires Mimics(uri, e) && Below(p, e.name)
    ensures AtPrefix(p, uri)
  {
    if p.Some? {
      MimicsPrefix(uri, e, 0, |p.value|);
    }
  }

  /** The stored part of the root's suffix is a match for a URI that mimics the root's name. */
  lemma CutRootMatches(level: seq<Entry>, k: nat, uri: Str, rv: StaticMatch)
    requires Reaches(level, k) && level != []
    requires var e := level[Middle(|level|)];
             |e.name| - k >= 256 && Mimics(uri, e) && NulFree(e.name)
    ensures var e := level[Middle(|level|)];
            var cut := (|e.name| - k) % 256;
            Search(BuildTree(level, k), uri[k..], rv) ==
            if e.inclusive.Some? then
              Search(BuildTree(e.list, |e.name|), uri[k..][cut..], Inclusive(e.inclusive.value))
            else Search(BuildTree(level[Middle(|level|) + 1..], k), uri[k..], rv)
  {
    hide BuildTree, Search, Mimics, NulFree;
    var e := level[Middle(|level|)];
    BuiltNode(level, k);
    CutSuffix(e, k, uri);
    CutNodeMatches(BuildTree(level, k), uri[k..], rv);
  }

  lemma CutSuffix(e: Entry, k: nat, uri: Str)
    requires |e.name| - k >= 256 && Mimics(uri, e) && NulFree(e.name)
    ensures var len := (|e.name| - k) % 256;
            && len < |uri| - k && len < |e.name| - k && NulFree(e.name[k..]) && uri[k..][..len] == e.name[k..][..len]
  {
    MimicsPrefix(uri, e, k, k + (|e.name| - k) % 256);
    assert forall b :: b in e.name[k..] ==> b in e.name;
  }

  lemma CutRootComesFrom(level: seq<Entry>, k: nat, uri: Str, rv: StaticMatch)
    requires Reaches(level, k) && level != []
    requires var e := level[Middle(|level|)];
             |e.name| - k >= 256 && Mimics(uri, e) && NulFree(e.name)
    ensures var m := Middle(|level|);
            var e := level[m];
            var r := Search(BuildTree(level, k), uri[k..], rv);
            if e.inclusive.Some? then r == Inclusive(e.inclusive.value) || ComesFrom(Flatten(e.list), r)
            else r == rv || ComesFrom(Flatten(level[m + 1..]), r)
  {
    hide BuildTree, Search;
    var m := Middle(|level|);
    var e := level[m];
    CutRootMatches(level, k, uri, rv);
    if e.inclusive.Some? {
      SearchComesFrom(e.list, |e.name|, uri[k..][(|e.name| - k) % 256..], Inclusive(e.inclusive.value));
    } else {
      SearchComesFrom(level[m + 1..], k, uri[k..], rv);
    }
  }

  lemma RootWrong(level: seq<Entry>, p: Option<Str>, m: nat, uri: Str, rv: StaticMatch, r: StaticMatch)
    requires Level(level, p) && m < |level| && !rv.Exact?
    requires |uri| == |level[m].name| && (level[m].exact.Some? <==> uri == level[m].name)
    requires if level[m].inclusive.Some?
             then r == Inclusive(level[m].inclusive.value) || ComesFrom(Flatten(level[m].list), r)
             else r == rv || ComesFrom(Flatten(level[m + 1..]), r)
    ensures Wrong(Flatten(level), uri, r)
  {
    assert WellNamed(level[m]);
    if level[m].inclusive.Some? {
      InclusiveRootWrong(level, p, m, uri, r);
    } else {
      ExactRootWrong(level, p, m, rv, r);
    }
  }

  /** The entry at the root of a level's tree is cut short: a URI it gets wrong. */
  lemma RootMisses(level: seq<Entry>, p: Option<Str>, rv: StaticMatch) returns (uri: Str, e: Entry)
    requires Level(level, p) && Reaches(level, PrefixLen(p)) && level != [] && !rv.Exact?
    requires |level[Middle(|level|)].name| - PrefixLen(p) >= 256
    ensures e in Flatten(level) && Mimics(uri, e) && |e.name| >= PrefixLen(p) + 256 && AtPrefix(p, uri)
    ensures Wrong(Flatten(level), uri, Search(BuildTree(level, PrefixLen(p)), uri[PrefixLen(p)..], rv))
  {
    hide Wrong, Flatten, Search, BuildTree, Before;
    var m := Middle(|level|);
    e := level[m].(list := []);
    uri := ProbeFor(e);
    PartsOfFlatten(level, m);
    assert WellNamed(level[m]) && Below(p, level[m].name);
    MimicsAtPrefix(uri, e, p);
    CutRootComesFrom(level, PrefixLen(p), uri, rv);
    RootWrong(level, p, m, uri, rv, Search(BuildTree(level, PrefixLen(p)), uri[PrefixLen(p)..], rv));
  }

  lemma InclusiveRootWrong(level: seq<Entry>, p: Option<Str>, m: nat, uri: Str, r: StaticMatch)
    requires Level(level, p) && m < |level| && level[m].inclusive.Some?
    requires |uri| == |level[m].name| && (level[m].exact.Some? <==> uri == level[m].name)
    requires r == Inclusive(level[m].inclusive.value) || ComesFrom(Flatten(level[m].list), r)
    ensures Wrong(Flatten(level), uri, r)
  {
    var top := level[m];
    var e := top.(list := []);
    PartsOfFlatten(level, m);
    if r == FromInclusive(e) {
      assert e in Flatten(level);
    } else {
      var x :| x in Flatten(top.list) && (r == FromExact(x) || r == FromInclusive(x));
      UnderIsLonger(top);
      assert x in Flatten(level) && !(x.name <= uri);
    }
  }

  lemma ExactRootWrong(level: seq<Entry>, p: Option<Str>, m: nat, rv: StaticMatch, r: StaticMatch)
    requires Level(level, p) && m < |level| && level[m].exact.Some? && !rv.Exact?
    requires r == rv || ComesFrom(Flatten(level[m + 1..]), r)
    ensures Wrong(Flatten(level), level[m].name, r)
  {
    var e := level[m].(list := []);
    PartsOfFlatten(level, m);
    assert e in Flatten(level);
    if r == Exact(e.exact.value) {
      var x :| x in Flatten(level[m + 1..]) && (r == FromExact(x) || r == FromInclusive(x));
      SliceOfLevel(level, p, m + 1, |level|);
      var i := FlattenUnderTop(level[m + 1..], p, x);
      assert x.name == e.name;
      RightEntry(level, p, m, x);
      BeforeIrreflexive(e.name);
    }
  }

  /** If some suffix of a level, or below it, does not fit, some URI is answered wrongly. */
  lemma {:induction false} SearchMisses(level: seq<Entry>, p: Option<Str>, rv: StaticMatch)
    returns (uri: Str, e: Entry)
    requires Level(level, p) && Reaches(level, PrefixLen(p)) && !SuffixesFit(level, PrefixLen(p)) && !rv.Exact?
    ensures e in Flatten(level) && Mimics(uri, e) && |e.name| >= PrefixLen(p) + 256 && AtPrefix(p, uri)
    ensures Wrong(Flatten(level), uri, Search(BuildTree(level, PrefixLen(p)), uri[PrefixLen(p)..], rv))
    decreases level
  {
    hide Wrong, Flatten, Search, BuildTree, Searchable, Before, Level, Reaches, SuffixesFit, Mimics, Below;
    var k := PrefixLen(p);
    UnfitIsNotEmpty(level, k);
    var m := Middle(|level|);
    var top := level[m];
    RootFacts(level, p, m);
    PartsOfFlatten(level, m);
    if |top.name| - k >= 256 {
      uri, e := RootMisses(level, p, rv);
    } else if !SuffixesFit(level[..m], k) {
      uri, e := SearchMisses(level[..m], p, rv);
      LeftEntry(level, p, m, e);
      RouteTo(level, p, m, uri, e, rv);
      WrongInWhole(Flatten(level[..m]), Flatten(level), uri, Search(BuildTree(level, k), uri[k..], rv));
    } else if !SuffixesFit(level[m + 1..], k) {
      uri, e := SearchMisses(level[m + 1..], p, rv);
      RightEntry(level, p, m, e);
      BeforeAsymmetric(top.name, e.name);
      RouteTo(level, p, m, uri, e, rv);
      WrongInWhole(Flatten(level[m + 1..]), Flatten(level), uri, Search(BuildTree(level, k), uri[k..], rv));
    } else {
      RootListUnfit(level, p);
      uri, e := SearchMisses(top.list, Some(top.name), Inclusive(top.inclusive.value));
      UnderRoot(top, e);
      BelowUnder(p, top.name, e.name);
      MimicsAtPrefix(uri, e, p);
      RouteTo(level, p, m, uri, e, rv);
      WrongInWhole(Flatten(top.list), Flatten(level), uri, Search(BuildTree(level, k), uri[k..], rv));
    }
  }

  lemma BelowUnder(p: Option<Str>, top: Str, name: Str)
    requires Below(p, top) && top < name
    ensures Below(p, name)
  {
  }

  lemma UnfitIsNotEmpty(level: seq<Entry>, k: nat)
    requires !SuffixesFit(level, k)
    ensures level != []
  {
  }

  lemma RootListUnfit(level: seq<Entry>, p: Option<Str>)
    requires Level(level, p) && level != [] && !SuffixesFit(level, PrefixLen(p))
    requires var m := Middle(|level|);
             |level[m].name| - PrefixLen(p) < 256
             && SuffixesFit(level[..m], PrefixLen(p)) && SuffixesFit(level[m + 1..], PrefixLen(p))
    ensures var e := level[Middle(|level|)]; !SuffixesFit(e.list, |e.name|) && e.list != [] && e.inclusive.Some?
  {
    var k := PrefixLen(p);
    var m := Middle(|level|);
    if SuffixesFit(level[m].list, |level[m].name|) {
      forall i | 0 <= i < |level|
        ensures |level[i].name| - k < 256 && SuffixesFit(level[i].list, |level[i].name|)
      {
        if i < m {
          assert level[i] == level[..m][i];
        } else if i > m {
          assert level[i] == level[m + 1..][i - m - 1];
        }
      }
    }
  }

  lemma UnderRoot(top: Entry, e: Entry)
    requires Level(top.list, Some(top.name)) && e in Flatten(top.list)
    ensures top.name < e.name && !Before(e.name, top.name)
  {
    var j := FlattenUnderTop(top.list, Some(top.name), e);
    assert Below(Some(top.name), top.list[j].name);
    PrefixNotAfter(top.name, e.name);
  }

  /** The root sends the URI the way it would send the name of the entry the URI mimics. */
  lemma RouteTo(level: seq<Entry>, p: Option<Str>, m: nat, uri: Str, e: Entry, rv: StaticMatch)
    requires Level(level, p) && Reaches(level, PrefixLen(p)) && level != [] && m == Middle(|level|)
    requires Mimics(uri, e) && |level[m].name| < |e.name| && AtPrefix(p, uri) && AtPrefix(p, level[m].name)
    requires |level[m].name| - PrefixLen(p) < 256
    ensures var k := PrefixLen(p);
            var r := Search(BuildTree(level, k), uri[k..], rv);
            r == if Before(e.name, level[m].name) then Search(BuildTree(level[..m], k), uri[k..], rv)
                 else if level[m].name <= e.name && level[m].inclusive.Some? then
                   Search(BuildTree(level[m].list, |level[m].name|), uri[|level[m].name|..],
                          Inclusive(level[m].inclusive.value))
                 else Search(BuildTree(level[m + 1..], k), uri[k..], rv)
  {
    assert WellNamed(level[m]);
    SameSide(uri, e.name, level[m].name);
    SearchStep(BuildTree(level, PrefixLen(p)), level[m].name, PrefixLen(p), uri, rv);
  }
}
