/**
 The passes that turn the queue of `location` entries into a search tree, as functions on queue contents:
 stable sort, join of exact/inclusive twins, nesting by prefix, balanced tree of name suffixes.
 */
module LocationCompiler {
  import opened Bytes
  import opened FilenameOrder
  import opened LocationSpec

  /** ngx_http_dynamic_location_queue_t: `list` holds the entries nested under an inclusive one. */
  datatype Entry = Entry(name: Str, exact: Option<LocConf>, inclusive: Option<LocConf>, list: seq<Entry>)

  /** ngx_http_dynamic_location_tree_node_t; `name` is what was copied, `len` its length cut to one byte. */
  datatype Tree =
    | Nil
    | Node(len: nat, name: Str, exact: Option<LocConf>, inclusive: Option<LocConf>,
           left: Tree, right: Tree, tree: Tree)

  predicate HasConf(e: Entry) {
    e.exact.Some? || e.inclusive.Some?
  }

  function ConfOf(e: Entry): LocConf
    requires HasConf(e)
  {
    if e.exact.Some? then e.exact.value else e.inclusive.value
  }

  /** The entry add_location appends for a location. */
  function EntryFor(c: LocConf): Entry {
    if c.exactMatch || c.regex
    then Entry(c.name, Some(c), None, [])
    else Entry(c.name, None, Some(c), [])
  }

  function EntriesFor(decls: seq<LocConf>): (es: seq<Entry>)
    ensures |es| == |decls|
    ensures forall i :: 0 <= i < |decls| ==> es[i] == EntryFor(decls[i])
  {
    seq(|decls|, i requires 0 <= i < |decls| => EntryFor(decls[i]))
  }

  predicate Sortable(e: Entry) {
    HasConf(e) && NulFree(ConfOf(e).name)
  }

  ghost predicate AllSortable(s: seq<Entry>) {
    forall i :: 0 <= i < |s| ==> Sortable(s[i])
  }

  // ----- the comparator and the stable sort

  function CmpLocations(one: Entry, two: Entry): int
    requires Sortable(one) && Sortable(two)
  {
    var first, second := ConfOf(one), ConfOf(two);
    if first.regex && !second.regex then 1
    else if !first.regex && second.regex then -1
    else if first.regex || second.regex then 0
    else
      var rc := FilenameCmp(first.name + [NUL], second.name + [NUL], Min(|first.name|, |second.name|) + 1);
      if rc == 0 && !first.exactMatch && second.exactMatch then 1 else rc
  }

  predicate NotAfter(a: Entry, b: Entry)
    requires Sortable(a) && Sortable(b)
  {
    CmpLocations(a, b) <= 0
  }

  predicate SameRank(a: Entry, b: Entry)
    requires Sortable(a) && Sortable(b)
  {
    NotAfter(a, b) && NotAfter(b, a)
  }

  /** What `cmp(a,b) <= 0` means: static before regex, then by name, then exact before inclusive. */
  lemma NotAfterMeans(a: Entry, b: Entry)
    requires Sortable(a) && Sortable(b)
    ensures var x, y := ConfOf(a), ConfOf(b);
            NotAfter(a, b) <==>
              if x.regex then y.regex
              else y.regex || Before(x.name, y.name) || (x.name == y.name && (x.exactMatch || !y.exactMatch))
  {
    var x, y := ConfOf(a), ConfOf(b);
    CmpDecidesBefore(x.name, y.name);
  }

  /** `cmp(a,b) <= 0` is a total preorder, although `cmp` itself is not antisymmetric. */
  lemma NotAfterTotalPreorder(a: Entry, b: Entry, c: Entry)
    requires Sortable(a) && Sortable(b) && Sortable(c)
    ensures NotAfter(a, a)
    ensures NotAfter(a, b) || NotAfter(b, a)
    ensures NotAfter(a, b) && NotAfter(b, c) ==> NotAfter(a, c)
  {
    NotAfterMeans(a, a);
    NotAfterMeans(a, b);
    NotAfterMeans(b, a);
    NotAfterMeans(b, c);
    NotAfterMeans(a, c);
    BeforeTotal(ConfOf(a).name, ConfOf(b).name);
    if Before(ConfOf(a).name, ConfOf(b).name) && Before(ConfOf(b).name, ConfOf(c).name) {
      BeforeTransitive(ConfOf(a).name, ConfOf(b).name, ConfOf(c).name);
    }
  }

  /** The same pair compares as 0 one way and 1 the other. */
  lemma CmpNotAntisymmetric(name: Str, i: nat, j: nat)
    requires NulFree(name)
    ensures var e := EntryFor(LocConf(i, name, true, false, false, false));
            var p := EntryFor(LocConf(j, name, false, false, false, false));
            CmpLocations(e, p) == 0 && CmpLocations(p, e) == 1
  {
    CmpDecidesBefore(name, name);
  }

  ghost predicate SortedEntries(s: seq<Entry>)
    requires AllSortable(s)
  {
    forall i, j :: 0 <= i < j < |s| ==> NotAfter(s[i], s[j])
  }

  /** The entries of `s` that compare equal to `e`, in order. */
  ghost function RankClass(s: seq<Entry>, e: Entry): seq<Entry>
    requires AllSortable(s) && Sortable(e)
  {
    if s == [] then []
    else (if SameRank(s[0], e) then [s[0]] else []) + RankClass(s[1..], e)
  }

  ghost predicate SameClasses(s: seq<Entry>, t: seq<Entry>)
    requires AllSortable(s) && AllSortable(t)
  {
    forall e :: Sortable(e) ==> RankClass(t, e) == RankClass(s, e)
  }

  /** The contract of ngx_queue_sort: an ordered permutation that keeps equal entries in order. */
  ghost predicate IsStableSort(s: seq<Entry>, t: seq<Entry>)
    requires AllSortable(s)
  {
    && multiset(s) == multiset(t)
    && AllSortable(t)
    && SortedEntries(t)
    && SameClasses(s, t)
  }

  function Insert(t: seq<Entry>, x: Entry): (r: seq<Entry>)
    requires AllSortable(t) && Sortable(x)
    ensures multiset(r) == multiset(t + [x])
    ensures AllSortable(r)
  {
    if t == [] || NotAfter(t[|t| - 1], x) then
      t + [x]
    else
      assert t == t[..|t| - 1] + [t[|t| - 1]];
      Insert(t[..|t| - 1], x) + [t[|t| - 1]]
  }

  function StableSort(s: seq<Entry>): (t: seq<Entry>)
    requires AllSortable(s)
    ensures multiset(t) == multiset(s)
    ensures AllSortable(t)
  {
    if s == [] then []
    else
      assert s == s[..|s| - 1] + [s[|s| - 1]];
      Insert(StableSort(s[..|s| - 1]), s[|s| - 1])
  }

  lemma InMultiset<T>(s: seq<T>, t: seq<T>, i: nat) returns (j: nat)
    requires multiset(s) == multiset(t) && i < |s|
    ensures j < |t| && t[j] == s[i]
  {
    assert s[i] in multiset(t);
    j :| 0 <= j < |t| && t[j] == s[i];
  }

  lemma {:induction false} InsertSorted(t: seq<Entry>, x: Entry)
    requires AllSortable(t) && Sortable(x) && SortedEntries(t)
    ensures SortedEntries(Insert(t, x))
    decreases |t|
  {
    if t == [] {
    } else if NotAfter(t[|t| - 1], x) {
      forall i | 0 <= i < |t| ensures NotAfter(t[i], x) {
        NotAfterTotalPreorder(t[i], t[|t| - 1], x);
      }
    } else {
      var front, last := t[..|t| - 1], t[|t| - 1];
      InsertSorted(front, x);
      NotAfterTotalPreorder(x, last, x);
      var r := Insert(front, x);
      forall i | 0 <= i < |r| ensures NotAfter(r[i], last) {
        var j := InMultiset(r, front + [x], i);
      }
    }
  }

  lemma {:induction false} RankClassConcat(s: seq<Entry>, t: seq<Entry>, e: Entry)
    requires AllSortable(s) && AllSortable(t) && Sortable(e)
    ensures AllSortable(s + t)
    ensures RankClass(s + t, e) == RankClass(s, e) + RankClass(t, e)
    decreases |s|
  {
    if s == [] {
      assert s + t == t;
    } else {
      assert (s + t)[1..] == s[1..] + t;
      RankClassConcat(s[1..], t, e);
    }
  }

  lemma {:induction false} InsertStable(t: seq<Entry>, x: Entry, e: Entry)
    requires AllSortable(t) && Sortable(x) && Sortable(e)
    ensures RankClass(Insert(t, x), e) == RankClass(t + [x], e)
    decreases |t|
  {
    hide Sortable, CmpLocations, NulFree;
    if t == [] || NotAfter(t[|t| - 1], x) {
    } else {
      var front, last := t[..|t| - 1], t[|t| - 1];
      assert t == front + [last];
      InsertStable(front, x, e);
      RankClassConcat(Insert(front, x), [last], e);
      RankClassConcat(front, [x], e);
      RankClassConcat(front, [last], e);
      RankClassConcat(t, [x], e);
      if SameRank(x, e) && SameRank(last, e) {
        NotAfterTotalPreorder(last, e, x);
        assert false;
      }
    }
  }

  lemma {:induction false} StableSortIsStable(s: seq<Entry>)
    requires AllSortable(s)
    ensures IsStableSort(s, StableSort(s))
    decreases |s|
  {
    if s != [] {
      var front, last := s[..|s| - 1], s[|s| - 1];
      assert s == front + [last];
      StableSortIsStable(front);
      InsertSorted(StableSort(front), last);
      forall e | Sortable(e) ensures RankClass(StableSort(s), e) == RankClass(s, e) {
        InsertStable(StableSort(front), last, e);
        RankClassConcat(StableSort(front), [last], e);
        RankClassConcat(front, [last], e);
      }
    }
  }

  /** Any two stable sorts agree, so nothing below depends on which one nginx uses. */
  lemma StableSortUnique(s: seq<Entry>, t1: seq<Entry>, t2: seq<Entry>)
    requires AllSortable(s) && IsStableSort(s, t1) && IsStableSort(s, t2)
    ensures t1 == t2
  {
    assert forall e :: Sortable(e) ==> RankClass(t1, e) == RankClass(s, e);
    SameClassesSameSequence(t1, t2);
  }

  lemma RankClassOfTail(t: seq<Entry>, e: Entry)
    requires AllSortable(t) && t != [] && Sortable(e)
    ensures RankClass(t[1..], e) == if SameRank(t[0], e) then RankClass(t, e)[1..] else RankClass(t, e)
  {
  }

  lemma SameHead(t1: seq<Entry>, t2: seq<Entry>)
    requires t1 != [] && t2 != []
    requires AllSortable(t1) && AllSortable(t2) && SortedEntries(t1) && SortedEntries(t2)
    requires multiset(t1) == multiset(t2)
    requires RankClass(t1, t1[0]) == RankClass(t2, t1[0])
    ensures t1[0] == t2[0]
  {
    var i := InMultiset(t1, t2, 0);
    var j := InMultiset(t2, t1, 0);
    NotAfterTotalPreorder(t1[0], t1[0], t1[0]);
    NotAfterTotalPreorder(t2[0], t2[0], t2[0]);
    assert RankClass(t1, t1[0])[0] == t1[0] && RankClass(t2, t1[0])[0] == t2[0];
  }

  lemma SameTailClasses(t1: seq<Entry>, t2: seq<Entry>)
    requires t1 != [] && t2 != [] && t1[0] == t2[0]
    requires AllSortable(t1) && AllSortable(t2) && SameClasses(t1, t2)
    ensures SameClasses(t1[1..], t2[1..])
  {
    forall e | Sortable(e) ensures RankClass(t2[1..], e) == RankClass(t1[1..], e) {
      RankClassOfTail(t1, e);
      RankClassOfTail(t2, e);
    }
  }

  lemma SameTailMultisets(t1: seq<Entry>, t2: seq<Entry>)
    requires t1 != [] && t2 != [] && t1[0] == t2[0] && multiset(t1) == multiset(t2)
    ensures multiset(t1[1..]) == multiset(t2[1..])
  {
    assert t1 == [t1[0]] + t1[1..] && t2 == [t1[0]] + t2[1..];
    assert multiset(t1[1..]) == multiset(t1) - multiset{t1[0]};
    assert multiset(t2[1..]) == multiset(t2) - multiset{t1[0]};
  }

  lemma {:induction false} SameClassesSameSequence(t1: seq<Entry>, t2: seq<Entry>)
    requires AllSortable(t1) && AllSortable(t2) && SortedEntries(t1) && SortedEntries(t2)
    requires multiset(t1) == multiset(t2) && SameClasses(t1, t2)
    ensures t1 == t2
    decreases |t1|
  {
    assert |multiset(t1)| == |t1| && |multiset(t2)| == |t2|;
    if t1 != [] {
      SameHead(t1, t2);
      SameTailClasses(t1, t2);
      SameTailMultisets(t1, t2);
      SameClassesSameSequence(t1[1..], t2[1..]);
      assert t1 == [t1[0]] + t1[1..] && t2 == [t1[0]] + t2[1..];
    }
  }

  // ----- regex locations leave the queue

  predicate IsRegex(e: Entry)
    requires HasConf(e)
  {
    ConfOf(e).regex
  }

  /** Index of the first regex entry, the place where init_locations splits the sorted queue. */
  function RegexStart(t: seq<Entry>): (m: nat)
    requires AllSortable(t)
    ensures m <= |t|
    ensures forall i :: 0 <= i < m ==> !IsRegex(t[i])
    ensures m < |t| ==> IsRegex(t[m])
  {
    if t == [] || IsRegex(t[0]) then 0 else 1 + RegexStart(t[1..])
  }

  function StaticPart(t: seq<Entry>): seq<Entry>
    requires AllSortable(t)
  {
    t[..RegexStart(t)]
  }

  /** The `regex_locations` array: the exact conf of every entry from the first regex on. */
  function ExactColumn(t: seq<Entry>): (r: seq<LocConf>)
    requires forall i :: 0 <= i < |t| ==> t[i].exact.Some?
    ensures |r| == |t|
    ensures forall i :: 0 <= i < |t| ==> r[i] == t[i].exact.value
  {
    seq(|t|, i requires 0 <= i < |t| => t[i].exact.value)
  }

  /** An entry as add_location makes it. */
  predicate Fresh(e: Entry) {
    HasConf(e) && e == EntryFor(ConfOf(e)) && NulFree(e.name)
  }

  ghost predicate AllFresh(q: seq<Entry>) {
    forall i :: 0 <= i < |q| ==> Fresh(q[i])
  }

  ghost predicate NulFreeDecls(decls: seq<LocConf>) {
    forall i :: 0 <= i < |decls| ==> NulFree(decls[i].name)
  }

  lemma EntriesAreFresh(decls: seq<LocConf>)
    requires NulFreeDecls(decls)
    ensures AllFresh(EntriesFor(decls)) && AllSortable(EntriesFor(decls))
  {
  }

  lemma SortedIsFresh(s: seq<Entry>)
    requires AllSortable(s) && AllFresh(s)
    ensures AllFresh(StableSort(s))
  {
    var t := StableSort(s);
    forall i | 0 <= i < |t| ensures Fresh(t[i]) {
      var j := InMultiset(t, s, i);
    }
  }

  lemma RegexesAtTheEnd(t: seq<Entry>)
    requires AllSortable(t) && SortedEntries(t) && AllFresh(t)
    ensures forall i :: RegexStart(t) <= i < |t| ==> IsRegex(t[i]) && t[i].exact.Some?
  {
    var m := RegexStart(t);
    forall i | m <= i < |t| ensures IsRegex(t[i]) && t[i].exact.Some? {
      if i > m {
        NotAfterMeans(t[m], t[i]);
      }
    }
  }

  /** The sorted queue: statics, then the regexes in declaration order. */
  lemma SortedQueueSplits(decls: seq<LocConf>)
    requires NulFreeDecls(decls) && AllSortable(EntriesFor(decls))
    ensures var t := StableSort(EntriesFor(decls));
            var m := RegexStart(t);
            && AllFresh(t)
            && (forall i :: m <= i < |t| ==> IsRegex(t[i]) && t[i].exact.Some?)
            && t[m..] == EntriesFor(RegexConfs(decls))
  {
    hide StableSort, RegexStart, RankClass, Fresh;
    EntriesAreFresh(decls);
    var s := EntriesFor(decls);
    var t := StableSort(s);
    var m := RegexStart(t);
    StableSortIsStable(s);
    SortedIsFresh(s);
    RegexesAtTheEnd(t);
    var probe := EntryFor(LocConf(0, [], false, false, true, false));
    RegexTailIsClass(t, probe);
    RegexClassIsDeclarationOrder(decls, probe);
  }

  lemma RegexTailIsClass(t: seq<Entry>, probe: Entry)
    requires AllSortable(t) && Sortable(probe) && IsRegex(probe)
    requires forall i :: RegexStart(t) <= i < |t| ==> IsRegex(t[i])
    ensures t[RegexStart(t)..] == RankClass(t, probe)
  {
    var m := RegexStart(t);
    assert t == t[..m] + t[m..];
    RankClassConcat(t[..m], t[m..], probe);
    ClassOfStatics(t[..m], probe);
    ClassOfRegexes(t[m..], probe);
  }

  lemma RegexColumn(decls: seq<LocConf>, t: seq<Entry>)
    requires t == EntriesFor(RegexConfs(decls))
    ensures forall i :: 0 <= i < |t| ==> t[i].exact.Some?
    ensures ExactColumn(t) == RegexConfs(decls)
  {
    RegexConfsAreRegex(decls);
  }

  lemma {:induction false} ClassOfStatics(t: seq<Entry>, probe: Entry)
    requires AllSortable(t) && Sortable(probe) && IsRegex(probe)
    requires forall i :: 0 <= i < |t| ==> !IsRegex(t[i])
    ensures RankClass(t, probe) == []
    decreases |t|
  {
    if t != [] {
      NotAfterMeans(probe, t[0]);
      ClassOfStatics(t[1..], probe);
    }
  }

  lemma {:induction false} ClassOfRegexes(t: seq<Entry>, probe: Entry)
    requires AllSortable(t) && Sortable(probe) && IsRegex(probe)
    requires forall i :: 0 <= i < |t| ==> IsRegex(t[i])
    ensures RankClass(t, probe) == t
    decreases |t|
  {
    if t != [] {
      ClassOfRegexes(t[1..], probe);
    }
  }

  lemma {:induction false} RegexClassIsDeclarationOrder(decls: seq<LocConf>, probe: Entry)
    requires NulFreeDecls(decls) && AllSortable(EntriesFor(decls)) && Sortable(probe) && IsRegex(probe)
    ensures RankClass(EntriesFor(decls), probe) == EntriesFor(RegexConfs(decls))
    decreases |decls|
  {
    hide Sortable, FilenameCmp, EntriesFor, NulFree;
    if decls != [] {
      assert EntriesFor(decls)[1..] == EntriesFor(decls[1..]);
      RegexClassIsDeclarationOrder(decls[1..], probe);
      if decls[0].regex {
        assert EntriesFor(RegexConfs(decls)) == [EntryFor(decls[0])] + EntriesFor(RegexConfs(decls[1..]));
      }
    }
  }

  lemma {:induction false} RegexConfsAreRegex(decls: seq<LocConf>)
    ensures forall i :: 0 <= i < |RegexConfs(decls)| ==> RegexConfs(decls)[i].regex && RegexConfs(decls)[i] in decls
    decreases |decls|
  {
    if decls != [] {
      RegexConfsAreRegex(decls[1..]);
    }
  }

  // ----- exact and inclusive twins are joined

  /** Both exact or both inclusive: the case join_exact_locations refuses. */
  predicate SameKind(a: Entry, b: Entry) {
    (a.exact.Some? && b.exact.Some?) || (a.inclusive.Some? && b.inclusive.Some?)
  }

  function Join(q: seq<Entry>): Option<seq<Entry>>
    decreases |q|
  {
    if |q| <= 1 then Some(q)
    else if q[0].name == q[1].name then
      if SameKind(q[0], q[1]) then None
      else Join([q[0].(inclusive := q[1].inclusive)] + q[2..])
    else
      match Join(q[1..])
      case None => None
      case Some(r) => Some([q[0]] + r)
  }

  /** A static entry whose confs carry its name. */
  predicate WellNamed(e: Entry) {
    && HasConf(e) && NulFree(e.name)
    && (e.exact.Some? ==> e.exact.value.name == e.name)
    && (e.inclusive.Some? ==> e.inclusive.value.name == e.name)
  }

  ghost predicate AllWellNamed(q: seq<Entry>) {
    forall i :: 0 <= i < |q| ==> WellNamed(q[i]) && q[i].list == []
  }

  ghost predicate StrictlySorted(q: seq<Entry>) {
    forall i, j :: 0 <= i < j < |q| ==> Before(q[i].name, q[j].name)
  }

  /** By name, and an entry with an exact conf is never behind one of the same name without. */
  ghost predicate TwinsAdjacent(q: seq<Entry>) {
    forall i, j :: 0 <= i < j < |q| ==>
      Before(q[i].name, q[j].name) || (q[i].name == q[j].name && (q[j].exact.Some? ==> q[i].exact.Some?))
  }

  ghost predicate SingleKind(q: seq<Entry>) {
    forall i :: 0 <= i < |q| ==> q[i].exact.None? || q[i].inclusive.None?
  }

  ghost predicate Clashing(q: seq<Entry>) {
    exists i, j :: 0 <= i < j < |q| && q[i].name == q[j].name && SameKind(q[i], q[j])
  }

  function ExactsOf(q: seq<Entry>): set<LocConf> {
    set e | e in q && e.exact.Some? :: e.exact.value
  }

  function PrefixesOf(q: seq<Entry>): set<LocConf> {
    set e | e in q && e.inclusive.Some? :: e.inclusive.value
  }

  lemma ConfsOfConcat(a: seq<Entry>, b: seq<Entry>)
    ensures ExactsOf(a + b) == ExactsOf(a) + ExactsOf(b)
    ensures PrefixesOf(a + b) == PrefixesOf(a) + PrefixesOf(b)
  {
  }

  lemma ConfsOfOne(e: Entry)
    ensures ExactsOf([e]) == if e.exact.Some? then {e.exact.value} else {}
    ensures PrefixesOf([e]) == if e.inclusive.Some? then {e.inclusive.value} else {}
  {
  }

  /**
   Join fails exactly when two exact or two inclusive entries share a name; otherwise the names become
   pairwise distinct, still sorted, and no conf is lost or made up.
   */
  lemma {:induction false} JoinCorrect(q: seq<Entry>)
    requires AllWellNamed(q) && TwinsAdjacent(q)
    requires q != [] ==> SingleKind(q[1..])
    ensures Join(q).None? <==> Clashing(q)
    ensures Join(q).Some? ==>
              var r := Join(q).value;
              && AllWellNamed(r) && StrictlySorted(r)
              && ExactsOf(r) == ExactsOf(q) && PrefixesOf(r) == PrefixesOf(q)
              && (q != [] ==> r != [] && r[0].name == q[0].name)
    decreases |q|
  {
    if |q| <= 1 {
    } else if q[0].name == q[1].name {
      JoinTwins(q);
    } else {
      JoinStep(q);
    }
  }

  lemma {:induction false} JoinTwins(q: seq<Entry>)
    requires AllWellNamed(q) && TwinsAdjacent(q) && |q| > 1 && SingleKind(q[1..])
    requires q[0].name == q[1].name
    ensures Join(q).None? <==> Clashing(q)
    ensures Join(q).Some? ==>
              var r := Join(q).value;
              && AllWellNamed(r) && StrictlySorted(r)
              && ExactsOf(r) == ExactsOf(q) && PrefixesOf(r) == PrefixesOf(q)
              && r != [] && r[0].name == q[0].name
    decreases |q|, 0
  {
    if SameKind(q[0], q[1]) {
    } else {
      BeforeIrreflexive(q[0].name);
      assert q[1] == q[1..][0] && WellNamed(q[0]) && WellNamed(q[1]);
      assert q[0].exact.Some? && q[0].inclusive.None? && q[1].inclusive.Some? && q[1].exact.None?;
      var merged := q[0].(inclusive := q[1].inclusive);
      MergedQueue(q, merged);
      JoinCorrect([merged] + q[2..]);
      MergedClash(q, merged);
      MergedConfs(q, merged);
    }
  }

  lemma MergedQueue(q: seq<Entry>, merged: Entry)
    requires AllWellNamed(q) && TwinsAdjacent(q) && |q| > 1 && SingleKind(q[1..])
    requires q[0].name == q[1].name && q[0].exact.Some?
    requires merged == q[0].(inclusive := q[1].inclusive)
    ensures AllWellNamed([merged] + q[2..]) && TwinsAdjacent([merged] + q[2..]) && SingleKind(q[2..])
  {
    var q' := [merged] + q[2..];
    forall i | 0 <= i < |q'| ensures WellNamed(q'[i]) && q'[i].list == [] {
      if i > 0 {
        assert q'[i] == q[i + 1];
      }
    }
    forall i, j | 0 <= i < j < |q'|
      ensures Before(q'[i].name, q'[j].name)
           || (q'[i].name == q'[j].name && (q'[j].exact.Some? ==> q'[i].exact.Some?))
    {
      assert q'[j] == q[j + 1];
      if i > 0 {
        assert q'[i] == q[i + 1];
      }
    }
    forall i | 0 <= i < |q[2..]| ensures q[2..][i].exact.None? || q[2..][i].inclusive.None? {
      assert q[2..][i] == q[1..][i + 1];
    }
  }

  lemma MergedConfs(q: seq<Entry>, merged: Entry)
    requires |q| > 1 && q[0].inclusive.None? && q[1].exact.None?
    requires merged == q[0].(inclusive := q[1].inclusive)
    ensures ExactsOf([merged] + q[2..]) == ExactsOf(q) && PrefixesOf([merged] + q[2..]) == PrefixesOf(q)
  {
    assert q == [q[0]] + ([q[1]] + q[2..]);
    ConfsOfConcat([q[0]], [q[1]] + q[2..]);
    ConfsOfConcat([q[1]], q[2..]);
    ConfsOfConcat([merged], q[2..]);
    ConfsOfOne(q[0]);
    ConfsOfOne(q[1]);
    ConfsOfOne(merged);
  }

  lemma MergedClash(q: seq<Entry>, merged: Entry)
    requires |q| > 1 && q[0].name == q[1].name && !SameKind(q[0], q[1])
    requires q[0].inclusive.None? && q[1].exact.None?
    requires merged == q[0].(inclusive := q[1].inclusive)
    ensures Clashing([merged] + q[2..]) <==> Clashing(q)
  {
    var q' := [merged] + q[2..];
    if Clashing(q') {
      MergedClashBack(q, merged);
    }
    if Clashing(q) {
      var i, j :| 0 <= i < j < |q| && q[i].name == q[j].name && SameKind(q[i], q[j]);
      assert j >= 2 && q[j] == q'[j - 1];
      if i <= 1 {
        assert q'[0].name == q'[j - 1].name && SameKind(q'[0], q'[j - 1]);
      } else {
        assert q[i] == q'[i - 1];
      }
    }
  }

  lemma MergedClashBack(q: seq<Entry>, merged: Entry)
    requires |q| > 1 && q[0].name == q[1].name
    requires merged == q[0].(inclusive := q[1].inclusive) && Clashing([merged] + q[2..])
    ensures Clashing(q)
  {
    var q' := [merged] + q[2..];
    var i, j :| 0 <= i < j < |q'| && q'[i].name == q'[j].name && SameKind(q'[i], q'[j]);
    assert q'[j] == q[j + 1];
    if i > 0 {
      assert q'[i] == q[i + 1];
    } else if SameKind(q[0], q[j + 1]) {
    } else {
      assert SameKind(q[1], q[j + 1]);
    }
  }

  lemma {:induction false} JoinStep(q: seq<Entry>)
    requires AllWellNamed(q) && TwinsAdjacent(q) && |q| > 1 && SingleKind(q[1..])
    requires q[0].name != q[1].name
    ensures Join(q).None? <==> Clashing(q)
    ensures Join(q).Some? ==>
              var r := Join(q).value;
              && AllWellNamed(r) && StrictlySorted(r)
              && ExactsOf(r) == ExactsOf(q) && PrefixesOf(r) == PrefixesOf(q)
              && r != [] && r[0].name == q[0].name
    decreases |q|, 0
  {
    hide Before, NulFree;
    hide Rank;
    JoinCorrect(q[1..]);
    forall j | 1 <= j < |q| ensures q[0].name != q[j].name {
      assert Before(q[0].name, q[1].name);
      if j > 1 && q[1].name != q[j].name {
        BeforeTransitive(q[0].name, q[1].name, q[j].name);
      }
      BeforeIrreflexive(q[0].name);
    }
    assert Clashing(q) <==> Clashing(q[1..]) by {
      if Clashing(q) {
        var i, j :| 0 <= i < j < |q| && q[i].name == q[j].name && SameKind(q[i], q[j]);
        assert q[i] == q[1..][i - 1] && q[j] == q[1..][j - 1];
      }
      if Clashing(q[1..]) {
        var i, j :| 0 <= i < j < |q[1..]| && q[1..][i].name == q[1..][j].name && SameKind(q[1..][i], q[1..][j]);
        assert q[1..][i] == q[i + 1] && q[1..][j] == q[j + 1];
      }
    }
    if Join(q[1..]).Some? {
      var r := Join(q[1..]).value;
      assert q == [q[0]] + q[1..];
      ConfsOfConcat([q[0]], q[1..]);
      ConfsOfConcat([q[0]], r);
      forall j | 0 <= j < |r| ensures Before(q[0].name, r[j].name) {
        assert r[0].name == q[1].name;
        if j > 0 {
          BeforeTransitive(q[0].name, r[0].name, r[j].name);
        }
      }
    }
  }

  // ----- what reaches the tree passes

  ghost predicate AllHaveConf(s: seq<Entry>) {
    forall i :: 0 <= i < |s| ==> HasConf(s[i])
  }

  ghost predicate DuplicateEntries(s: seq<Entry>)
    requires AllHaveConf(s)
  {
    exists i, j :: 0 <= i < j < |s| && Duplicated(ConfOf(s[i]), ConfOf(s[j]))
  }

  lemma {:induction false} TwoOccurrences<T>(s: seq<T>, x: T) returns (i: nat, j: nat)
    requires multiset(s)[x] >= 2
    ensures i < j < |s| && s[i] == x && s[j] == x
    decreases |s|
  {
    assert s == [s[0]] + s[1..];
    if s[0] == x {
      assert x in multiset(s[1..]);
      i := 0;
      var k :| 0 <= k < |s[1..]| && s[1..][k] == x;
      j := k + 1;
    } else {
      i, j := TwoOccurrences(s[1..], x);
      i, j := i + 1, j + 1;
    }
  }

  lemma DuplicatesPermute(s: seq<Entry>, t: seq<Entry>)
    requires AllHaveConf(s) && AllHaveConf(t) && multiset(s) == multiset(t)
    requires DuplicateEntries(s)
    ensures DuplicateEntries(t)
  {
    var i, j :| 0 <= i < j < |s| && Duplicated(ConfOf(s[i]), ConfOf(s[j]));
    if s[i] == s[j] {
      assert s == s[..j] + [s[j]] + s[j + 1..];
      assert s[i] in multiset(s[..j]) by { assert s[..j][i] == s[i]; }
      assert multiset(s)[s[i]] >= 2;
      var k, l := TwoOccurrences(t, s[i]);
    } else {
      var k := InMultiset(s, t, i);
      var l := InMultiset(s, t, j);
      assert Duplicated(ConfOf(t[k]), ConfOf(t[l])) && Duplicated(ConfOf(t[l]), ConfOf(t[k]));
    }
  }

  lemma FreshPair(a: Entry, b: Entry)
    requires Fresh(a) && Fresh(b) && !IsRegex(a) && !IsRegex(b)
    ensures a.name == b.name && SameKind(a, b) <==> Duplicated(ConfOf(a), ConfOf(b))
  {
  }

  lemma StaticsClash(t: seq<Entry>)
    requires AllFresh(t) && AllSortable(t) && AllHaveConf(t)
    requires forall i :: RegexStart(t) <= i < |t| ==> IsRegex(t[i])
    ensures Clashing(StaticPart(t)) <==> DuplicateEntries(t)
  {
    hide RegexStart, AllSortable;
    var q := StaticPart(t);
    if Clashing(q) {
      var i, j :| 0 <= i < j < |q| && q[i].name == q[j].name && SameKind(q[i], q[j]);
      FreshPair(t[i], t[j]);
    }
    if DuplicateEntries(t) {
      var i, j :| 0 <= i < j < |t| && Duplicated(ConfOf(t[i]), ConfOf(t[j]));
      assert i < |q| && j < |q| && q[i] == t[i] && q[j] == t[j];
      FreshPair(t[i], t[j]);
    }
  }

  lemma DeclsAndEntries(decls: seq<LocConf>)
    requires AllHaveConf(EntriesFor(decls))
    ensures DuplicateEntries(EntriesFor(decls)) <==> !DuplicateFree(decls)
  {
    var s := EntriesFor(decls);
    assert forall i :: 0 <= i < |s| ==> ConfOf(s[i]) == decls[i];
    if DuplicateEntries(s) {
      var i, j :| 0 <= i < j < |s| && Duplicated(ConfOf(s[i]), ConfOf(s[j]));
      assert Duplicated(decls[i], decls[j]);
    }
    if !DuplicateFree(decls) {
      var i, j :| 0 <= i < j < |decls| && Duplicated(decls[i], decls[j]);
      assert Duplicated(ConfOf(s[i]), ConfOf(s[j]));
    }
  }

  /** A server that declares no location twice builds, any other does not. */
  lemma ClashMeansDuplicate(decls: seq<LocConf>)
    requires NulFreeDecls(decls) && AllSortable(EntriesFor(decls))
    ensures Clashing(StaticPart(StableSort(EntriesFor(decls)))) <==> !DuplicateFree(decls)
  {
    var s := EntriesFor(decls);
    var t := StableSort(s);
    SortedQueueSplits(decls);
    StaticsClash(t);
    DeclsAndEntries(decls);
    if DuplicateEntries(t) {
      DuplicatesPermute(t, s);
    }
    if DuplicateEntries(s) {
      DuplicatesPermute(s, t);
    }
  }

  /** After the sort each exact entry stands before its inclusive twin, with nothing but twins between. */
  lemma SortedStaticsReadyToJoin(t: seq<Entry>)
    requires AllSortable(t) && SortedEntries(t) && AllFresh(t)
    ensures AllWellNamed(StaticPart(t)) && TwinsAdjacent(StaticPart(t)) && SingleKind(StaticPart(t))
  {
    var q := StaticPart(t);
    forall i | 0 <= i < |q| ensures WellNamed(q[i]) && q[i].list == [] && (q[i].exact.None? || q[i].inclusive.None?) {
      assert q[i] == t[i] && Fresh(t[i]);
    }
    forall i, j | 0 <= i < j < |q|
      ensures Before(q[i].name, q[j].name)
           || (q[i].name == q[j].name && (q[j].exact.Some? ==> q[i].exact.Some?))
    {
      assert q[i] == t[i] && q[j] == t[j] && Fresh(t[i]) && Fresh(t[j]);
      assert !IsRegex(t[i]) && !IsRegex(t[j]);
      NotAfterMeans(t[i], t[j]);
    }
  }

  lemma StaticEntryOf(decls: seq<LocConf>, c: LocConf)
    requires NulFreeDecls(decls) && AllSortable(EntriesFor(decls)) && c in decls && !c.regex
    ensures EntryFor(c) in StaticPart(StableSort(EntriesFor(decls)))
  {
    hide StableSort;
    var t := StableSort(EntriesFor(decls));
    SortedQueueSplits(decls);
    var i :| 0 <= i < |decls| && decls[i] == c;
    var k := InMultiset(EntriesFor(decls), t, i);
    assert StaticPart(t)[k] == t[k];
  }

  lemma ConfOfStaticEntry(decls: seq<LocConf>, e: Entry)
    requires NulFreeDecls(decls) && AllSortable(EntriesFor(decls))
    requires e in StaticPart(StableSort(EntriesFor(decls)))
    ensures HasConf(e) && e == EntryFor(ConfOf(e)) && ConfOf(e) in decls && !ConfOf(e).regex
  {
    hide StableSort;
    var t := StableSort(EntriesFor(decls));
    var k :| 0 <= k < |StaticPart(t)| && StaticPart(t)[k] == e;
    assert !IsRegex(t[k]);
    var i := InMultiset(t, EntriesFor(decls), k);
  }

  lemma StaticConfs(decls: seq<LocConf>)
    requires NulFreeDecls(decls) && AllSortable(EntriesFor(decls))
    ensures var q := StaticPart(StableSort(EntriesFor(decls)));
            ExactsOf(q) == ExactConfs(decls) && PrefixesOf(q) == PrefixConfs(decls)
  {
    hide StableSort, StaticPart;
    var q := StaticPart(StableSort(EntriesFor(decls)));
    forall c | c in decls && !c.regex ensures EntryFor(c) in q {
      StaticEntryOf(decls, c);
    }
    forall e | e in q ensures HasConf(e) && e == EntryFor(ConfOf(e)) && ConfOf(e) in decls && !ConfOf(e).regex {
      ConfOfStaticEntry(decls, e);
    }
    forall c | c in ExactConfs(decls) ensures c in ExactsOf(q) {
      assert EntryFor(c) in q;
    }
    forall c | c in PrefixConfs(decls) ensures c in PrefixesOf(q) {
      assert EntryFor(c) in q;
    }
  }
}
