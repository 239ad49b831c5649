/**
 The passes composed: which declaration lists build, when a lookup in what they build means what the
 declarations say, and how many comparisons it takes.
 */
module LocationTheorems {
  import opened Bytes
  import opened FilenameOrder
  import opened LocationSpec
  import opened LocationCompiler
  import opened LocationForest
  import opened LocationTree
  import opened LocationTruncation

  /** Sort, split off the regexes, join. */
  function Joined(decls: seq<LocConf>): Option<seq<Entry>>
    requires NulFreeDecls(decls)
  {
    EntriesAreFresh(decls);
    Join(StaticPart(StableSort(EntriesFor(decls))))
  }

  /** What reaches create_locations_tree. */
  function ForestOf(decls: seq<LocConf>): seq<Entry>
    requires NulFreeDecls(decls) && Joined(decls).Some?
  {
    Nest(Joined(decls).value)
  }

  function StaticTreeOf(decls: seq<LocConf>): Tree
    requires NulFreeDecls(decls) && Joined(decls).Some? && Reaches(ForestOf(decls), 0)
  {
    BuildTree(ForestOf(decls), 0)
  }

  /** A server builds exactly when it declares no static location twice; nothing is lost on the way. */
  lemma BuildsIffDuplicateFree(decls: seq<LocConf>)
    requires NulFreeDecls(decls)
    ensures Joined(decls).Some? <==> DuplicateFree(decls)
    ensures Joined(decls).Some? ==>
              var forest := ForestOf(decls);
              && Level(forest, None) && Reaches(forest, 0)
              && Flatten(forest) == Joined(decls).value && StrictlySorted(Flatten(forest))
              && ExactsOf(Flatten(forest)) == ExactConfs(decls)
              && PrefixesOf(Flatten(forest)) == PrefixConfs(decls)
  {
    EntriesAreFresh(decls);
    var s := EntriesFor(decls);
    var t := StableSort(s);
    StableSortIsStable(s);
    SortedIsFresh(s);
    SortedStaticsReadyToJoin(t);
    JoinCorrect(StaticPart(t));
    ClashMeansDuplicate(decls);
    StaticConfs(decls);
    if Joined(decls).Some? {
      NestedIsLevel(Joined(decls).value);
    }
  }

  lemma NestedIsLevel(q: seq<Entry>)
    requires AllWellNamed(q) && StrictlySorted(q)
    ensures Level(Nest(q), None) && Reaches(Nest(q), 0) && Flatten(Nest(q)) == q
  {
    NestLevel(q, None);
    NestFlattens(q);
    LevelReaches(Nest(q), None);
  }

  lemma JoinedIsWellNamed(decls: seq<LocConf>)
    requires NulFreeDecls(decls) && Joined(decls).Some?
    ensures AllWellNamed(Joined(decls).value)
    ensures AllSortable(EntriesFor(decls))
    ensures StaticPart(StableSort(EntriesFor(decls))) != [] ==> Joined(decls).value != []
  {
    EntriesAreFresh(decls);
    StableSortIsStable(EntriesFor(decls));
    SortedIsFresh(EntriesFor(decls));
    SortedStaticsReadyToJoin(StableSort(EntriesFor(decls)));
    JoinCorrect(StaticPart(StableSort(EntriesFor(decls))));
  }

  /** An answer in the flattened queue is an answer about its confs. */
  lemma AnswerAboutConfs(level: seq<Entry>, p: Option<Str>, uri: Str, r: StaticMatch)
    requires Level(level, p) && Finds(Flatten(level), uri, NoMatch, r)
    ensures IsStaticAnswer(ExactsOf(Flatten(level)), PrefixesOf(Flatten(level)), uri, r)
  {
    var flat := Flatten(level);
    forall e | e in flat ensures WellNamed(e) {
      var i := FlattenUnderTop(level, p, e);
    }
    match r
    case Exact(c) =>
      var e :| e in flat && e.name == uri && e.exact == Some(c);
    case Inclusive(c) =>
      var e :| LongestIn(flat, uri, e) && e.inclusive == Some(c);
      forall x | x in ExactsOf(flat) ensures x.name != uri {
        var d :| d in flat && d.exact == Some(x);
      }
      forall x | x in PrefixesOf(flat) && x.name <= uri ensures |x.name| <= |c.name| {
        var d :| d in flat && d.inclusive == Some(x);
      }
    case NoMatch =>
      forall x | x in ExactsOf(flat) ensures x.name != uri {
        var d :| d in flat && d.exact == Some(x);
        assert !Relevant(d, uri);
      }
      forall x | x in PrefixesOf(flat) ensures !(x.name <= uri) {
        var d :| d in flat && d.inclusive == Some(x);
        assert !Relevant(d, uri);
      }
  }

  /** A wrong result is not an answer about the confs. */
  lemma WrongIsNoAnswer(level: seq<Entry>, p: Option<Str>, uri: Str, r: StaticMatch)
    requires Level(level, p) && Wrong(Flatten(level), uri, r)
    ensures !IsStaticAnswer(ExactsOf(Flatten(level)), PrefixesOf(Flatten(level)), uri, r)
  {
    var flat := Flatten(level);
    if e :| e in flat && e.name == uri && e.exact.Some? && r != Exact(e.exact.value) {
      var i := FlattenUnderTop(level, p, e);
      assert e.exact.value in ExactsOf(flat);
      if r.Exact? && r.conf in ExactsOf(flat) && r.conf.name == uri {
        var d :| d in flat && d.exact == Some(r.conf);
        var j := FlattenUnderTop(level, p, d);
        SameNameSameEntry(level, p, d, e);
      }
    } else {
      var e :| e in flat && !(e.name <= uri) && (r == FromExact(e) || r == FromInclusive(e)) && r != NoMatch;
      var i := FlattenUnderTop(level, p, e);
      assert e.name <= e.name;
    }
  }

  /** At most one entry of a level has a given name in its family. */
  lemma SameTop(level: seq<Entry>, p: Option<Str>, i: nat, j: nat, name: Str)
    requires Level(level, p) && i < |level| && j < |level|
    requires level[i].name <= name && (level[i].inclusive.Some? || level[i].name == name)
    requires level[j].name <= name && (level[j].inclusive.Some? || level[j].name == name)
    ensures i == j
  {
    PrefixesComparable(level[i].name, level[j].name, name);
    BeforeIrreflexive(level[i].name);
  }

  lemma PrefixesComparable(a: Str, b: Str, name: Str)
    requires a <= name && b <= name
    ensures if |a| <= |b| then a <= b else b <= a
  {
  }

  /** An entry with the top's name as a proper prefix sits in the top's list. */
  lemma BelowTop(level: seq<Entry>, p: Option<Str>, i: nat, e: Entry)
    requires Level(level, p) && i < |level| && e in Flatten(level) && level[i].inclusive.Some?
    requires level[i].name < e.name
    ensures e in Flatten(level[i].list)
  {
    hide Flatten, WellNamed;
    var j := FlattenUnderTop(level, p, e);
    SameTop(level, p, i, j, e.name);
  }

  lemma {:induction false} SameNameSameEntry(level: seq<Entry>, p: Option<Str>, d: Entry, e: Entry)
    requires Level(level, p) && d in Flatten(level) && e in Flatten(level) && d.name == e.name
    ensures d == e
    decreases level
  {
    hide Flatten, WellNamed;
    var i := FlattenUnderTop(level, p, d);
    var j := FlattenUnderTop(level, p, e);
    SameTop(level, p, i, j, d.name);
    if level[i].name != d.name {
      SameNameSameEntry(level[i].list, Some(level[i].name), d, e);
    }
  }

  // ----- the length condition, read off the declarations

  /** The name is short, or some inclusive name is a proper prefix of it that leaves a short rest. */
  ghost predicate ShortRest(flat: seq<Entry>, k: nat, e: Entry) {
    || |e.name| - k < 256
    || (exists d :: d in flat && d.inclusive.Some? && d.name < e.name && |e.name| - |d.name| < 256)
  }

  ghost predicate AllShortRests(level: seq<Entry>, k: nat) {
    forall e :: e in Flatten(level) ==> ShortRest(Flatten(level), k, e)
  }

  lemma {:induction false} FitIffShortRests(level: seq<Entry>, p: Option<Str>)
    requires Level(level, p)
    ensures SuffixesFit(level, PrefixLen(p)) <==> AllShortRests(level, PrefixLen(p))
    decreases level
  {
    forall i | 0 <= i < |level|
      ensures SuffixesFit(level[i].list, |level[i].name|) <==> AllShortRests(level[i].list, |level[i].name|)
    {
      FitIffShortRests(level[i].list, Some(level[i].name));
    }
    if SuffixesFit(level, PrefixLen(p)) {
      forall e | e in Flatten(level) ensures ShortRest(Flatten(level), PrefixLen(p), e) {
        FitGivesShortRest(level, p, e);
      }
    }
    if AllShortRests(level, PrefixLen(p)) {
      forall i | 0 <= i < |level|
        ensures |level[i].name| - PrefixLen(p) < 256 && AllShortRests(level[i].list, |level[i].name|)
      {
        PartsOfFlatten(level, i);
        TopHasShortName(level, p, i);
        forall e | e in Flatten(level[i].list)
          ensures ShortRest(Flatten(level[i].list), |level[i].name|, e)
        {
          ShortRestInList(level, p, i, e);
        }
      }
    }
  }

  lemma FitGivesShortRest(level: seq<Entry>, p: Option<Str>, e: Entry)
    requires Level(level, p) && SuffixesFit(level, PrefixLen(p)) && e in Flatten(level)
    requires forall i :: 0 <= i < |level| ==> AllShortRests(level[i].list, |level[i].name|)
    ensures ShortRest(Flatten(level), PrefixLen(p), e)
  {
    var i := FlattenUnderTop(level, p, e);
    PartsOfFlatten(level, i);
    var top := level[i].(list := []);
    if level[i].name != e.name {
      BelowTop(level, p, i, e);
      if |e.name| - |level[i].name| < 256 {
        assert top in Flatten(level) && top.name < e.name;
      } else {
        var d :| d in Flatten(level[i].list) && d.inclusive.Some? && d.name < e.name && |e.name| - |d.name| < 256;
        assert d in Flatten(level);
      }
    }
  }

  /** No inclusive entry is a proper prefix of a top entry. */
  lemma NothingAboveTop(level: seq<Entry>, p: Option<Str>, i: nat, d: Entry)
    requires Level(level, p) && i < |level| && d in Flatten(level) && d.inclusive.Some?
    ensures !(d.name < level[i].name)
  {
    var j := FlattenUnderTop(level, p, d);
  }

  lemma TopHasShortName(level: seq<Entry>, p: Option<Str>, i: nat)
    requires Level(level, p) && i < |level|
    requires ShortRest(Flatten(level), PrefixLen(p), level[i].(list := []))
    ensures |level[i].name| - PrefixLen(p) < 256
  {
    forall d | d in Flatten(level) && d.inclusive.Some? ensures !(d.name < level[i].name) {
      NothingAboveTop(level, p, i, d);
    }
  }

  lemma ShortRestInList(level: seq<Entry>, p: Option<Str>, i: nat, e: Entry)
    requires Level(level, p) && i < |level| && e in Flatten(level[i].list)
    requires ShortRest(Flatten(level), PrefixLen(p), e)
    ensures ShortRest(Flatten(level[i].list), |level[i].name|, e)
  {
    UnderRoot(level[i], e);
    assert Below(p, level[i].name);
    if |e.name| - |level[i].name| >= 256 {
      var d :| d in Flatten(level) && d.inclusive.Some? && d.name < e.name && |e.name| - |d.name| < 256;
      var j := FlattenUnderTop(level, p, d);
      SameTop(level, p, i, j, e.name);
    }
  }

  /** The condition on a declaration: its name, or what it adds to a declared prefix of it, fits in a byte. */
  ghost predicate FitsInByte(decls: seq<LocConf>, c: LocConf) {
    || |c.name| < 256
    || (exists d :: d in PrefixConfs(decls) && d.name < c.name && |c.name| - |d.name| < 256)
  }

  ghost predicate AllFitInByte(decls: seq<LocConf>) {
    forall c :: c in ExactConfs(decls) + PrefixConfs(decls) ==> FitsInByte(decls, c)
  }

  lemma AllFitIffSuffixesFit(decls: seq<LocConf>)
    requires NulFreeDecls(decls) && Joined(decls).Some?
    ensures AllFitInByte(decls) <==> SuffixesFit(ForestOf(decls), 0)
  {
    hide Joined, Flatten;
    BuildsIffDuplicateFree(decls);
    var forest := ForestOf(decls);
    var flat := Flatten(forest);
    FitIffShortRests(forest, None);
    forall e | e in flat ensures WellNamed(e) {
      var i := FlattenUnderTop(forest, None, e);
    }
    if AllFitInByte(decls) {
      forall e | e in flat ensures ShortRest(flat, 0, e) {
        var c := ConfOf(e);
        assert c in ExactsOf(flat) + PrefixesOf(flat);
        if |c.name| >= 256 {
          var d :| d in PrefixConfs(decls) && d.name < c.name && |c.name| - |d.name| < 256;
          var x :| x in flat && x.inclusive == Some(d);
          assert x.name == d.name;
        }
      }
    }
    if AllShortRests(forest, 0) {
      forall c | c in ExactConfs(decls) + PrefixConfs(decls) ensures FitsInByte(decls, c) {
        var e :| e in flat && (e.exact == Some(c) || e.inclusive == Some(c));
        assert ShortRest(flat, 0, e);
        if |c.name| >= 256 {
          var d :| d in flat && d.inclusive.Some? && d.name < e.name && |e.name| - |d.name| < 256;
          assert d.inclusive.value in PrefixesOf(flat);
        }
      }
    }
  }

  /** What the static search answers for `uri` is what the declarations say. */
  ghost predicate AnswersRight(decls: seq<LocConf>, uri: Str)
    requires NulFreeDecls(decls) && Joined(decls).Some? && Reaches(ForestOf(decls), 0)
  {
    IsStaticAnswer(ExactConfs(decls), PrefixConfs(decls), uri, Search(StaticTreeOf(decls), uri, NoMatch))
  }

  lemma FittingAnswersRight(decls: seq<LocConf>, uri: Str)
    requires NulFreeDecls(decls) && Joined(decls).Some? && AllFitInByte(decls)
    ensures Reaches(ForestOf(decls), 0) && AnswersRight(decls, uri)
  {
    BuildsIffDuplicateFree(decls);
    AllFitIffSuffixesFit(decls);
    SearchFinds(ForestOf(decls), None, uri, NoMatch);
    assert uri[0..] == uri;
    AnswerAboutConfs(ForestOf(decls), None, uri, Search(StaticTreeOf(decls), uri, NoMatch));
  }

  lemma UnfitAnswersWrong(decls: seq<LocConf>) returns (uri: Str)
    requires NulFreeDecls(decls) && Joined(decls).Some? && !AllFitInByte(decls)
    ensures Reaches(ForestOf(decls), 0) && !AnswersRight(decls, uri)
  {
    BuildsIffDuplicateFree(decls);
    AllFitIffSuffixesFit(decls);
    var e;
    uri, e := SearchMisses(ForestOf(decls), None, NoMatch);
    assert uri[0..] == uri;
    WrongIsNoAnswer(ForestOf(decls), None, uri, Search(StaticTreeOf(decls), uri, NoMatch));
  }

  /**
   Main theorem: a server that builds answers every URI as its declarations say if and only if every static
   name, or what it adds to some declared inclusive prefix of it, is shorter than 256 bytes.
   */
  lemma LookupRightIffSuffixesFit(decls: seq<LocConf>)
    requires NulFreeDecls(decls) && DuplicateFree(decls)
    ensures Joined(decls).Some? && Reaches(ForestOf(decls), 0)
    ensures (forall uri :: AnswersRight(decls, uri)) <==> AllFitInByte(decls)
  {
    BuildsIffDuplicateFree(decls);
    if AllFitInByte(decls) {
      forall uri ensures AnswersRight(decls, uri) {
        FittingAnswersRight(decls, uri);
      }
    } else {
      var uri := UnfitAnswersWrong(decls);
    }
  }

  lemma SingleLocation(c: LocConf)
    requires NulFree(c.name) && !c.regex
    ensures NulFreeDecls([c]) && Joined([c]) == Some([EntryFor(c)]) && Nest([EntryFor(c)]) == [EntryFor(c)]
  {
    hide StableSort, EntriesFor, NulFree;
    var e := EntryFor(c);
    EntriesAreFresh([c]);
    assert EntriesFor([c]) == [e];
    assert [e][..0] == [] && [e][1..] == [];
    assert StableSort([e]) == [] + [e] == [e];
    assert RegexStart([e]) == 1;
    assert StaticPart([e]) == [e];
  }

  /** A single prefix location of 256 bytes: the tree takes any non-empty URI for a match. */
  lemma LongNameMatchesEverything(c: LocConf, uri: Str)
    requires |c.name| == 256 && NulFree(c.name) && !c.regex && !c.exactMatch && uri != []
    ensures NulFreeDecls([c]) && Joined([c]).Some? && Reaches(ForestOf([c]), 0)
    ensures Search(StaticTreeOf([c]), uri, NoMatch) == Inclusive(c)
  {
    SingleLocation(c);
    BuildsIffDuplicateFree([c]);
    BuiltNode(ForestOf([c]), 0);
    assert Search(StaticTreeOf([c]).tree, uri, Inclusive(c)) == Inclusive(c);
    assert uri[0..] == uri;
  }
}
