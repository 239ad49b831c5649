/**
 The location queue and a server's locations as the objects the directives and the requests work on. The
 methods change queues in place, pass by pass; their contracts tie them to the functions of the compiler.
 */
module LocationServer {
  import opened Bytes
  import opened FilenameOrder
  import opened LocationSpec
  import opened LocationCompiler
  import opened LocationForest
  import opened LocationTree
  import opened LocationTheorems
  import LocationCost

  datatype Rc = NGX_OK | NGX_AGAIN | NGX_DECLINED | NGX_ERROR

  class LocationQueue {
    var entries: seq<Entry>

    constructor (es: seq<Entry>)
      ensures entries == es
    {
      entries := es;
    }

    method InsertTail(e: Entry)
      modifies this
      ensures entries == old(entries) + [e]
    {
      entries := entries + [e];
    }

    /** ngx_queue_sort: insertion from the front on, each entry moved before those it must precede. */
    method Sort()
      requires AllSortable(entries)
      modifies this
      ensures entries == StableSort(old(entries))
    {
      ghost var was := entries;
      var rest: seq<Entry> := entries;
      entries := [];
      ghost var i := 0;
      while rest != []
        invariant 0 <= i <= |was| && rest == was[i..]
        invariant AllSortable(entries) && entries == StableSort(was[..i])
        decreases |rest|
      {
        StableSortSnoc(was, i);
        InsertBack(rest[0]);
        rest := rest[1..];
        i := i + 1;
      }
      assert was[..i] == was;
    }

    method InsertBack(x: Entry)
      requires AllSortable(entries) && Sortable(x)
      modifies this
      ensures entries == Insert(old(entries), x)
    {
      ghost var was := entries;
      var p := |entries|;
      InsertStart(was, x);
      while p > 0 && !NotAfter(entries[p - 1], x)
        invariant 0 <= p <= |entries| && entries == was
        invariant Insert(was, x) == Insert(was[..p], x) + was[p..]
      {
        InsertPass(was, x, p);
        p := p - 1;
      }
      InsertStop(was, x, p);
      entries := entries[..p] + [x] + entries[p..];
    }

    /** The first pass of init_locations: where the regexes start, and how many there are. */
    method FindRegexes() returns (regex: Option<nat>, r: nat)
      requires AllSortable(entries)
      requires forall i :: RegexStart(entries) <= i < |entries| ==> IsRegex(entries[i])
      ensures regex == if RegexStart(entries) == |entries| then None else Some(RegexStart(entries))
      ensures r == |entries| - RegexStart(entries)
    {
      regex, r := None, 0;
      var q := 0;
      while q < |entries|
        invariant 0 <= q <= |entries|
        invariant regex == if q <= RegexStart(entries) then None else Some(RegexStart(entries))
        invariant r == if q <= RegexStart(entries) then 0 else q - RegexStart(entries)
      {
        var lq := entries[q];
        var hdclcf := if lq.exact.Some? then lq.exact.value else lq.inclusive.value;
        assert hdclcf == ConfOf(entries[q]);
        if hdclcf.regex {
          r := r + 1;
          if regex.None? {
            regex := Some(q);
          }
        }
        q := q + 1;
      }
    }

    /** The second pass: the regexes, known to be at the end, go into an array and leave the queue. */
    method CutRegexes() returns (regexLocations: seq<LocConf>)
      requires AllSortable(entries)
      requires forall i :: RegexStart(entries) <= i < |entries| ==> IsRegex(entries[i]) && entries[i].exact.Some?
      modifies this
      ensures entries == StaticPart(old(entries))
      ensures regexLocations == ExactColumn(old(entries[RegexStart(entries)..]))
    {
      ghost var was := entries;
      var regex, r := FindRegexes();
      regexLocations := [];
      if regex.Some? {
        var q := regex.value;
        while q < |entries|
          invariant RegexStart(was) <= q <= |entries| && entries == was
          invariant regexLocations == ExactColumn(was[RegexStart(was)..q])
        {
          regexLocations := regexLocations + [entries[q].exact.value];
          q := q + 1;
        }
        assert was[RegexStart(was)..q] == was[RegexStart(was)..];
        entries := entries[..regex.value];
      }
    }

    /** An exact entry takes over its inclusive twin; two of a kind are an error. */
    method JoinExactLocations() returns (ok: bool)
      requires entries != []
      requires forall i :: 0 <= i < |entries| ==> NulFree(entries[i].name)
      modifies this
      ensures ok <==> Join(old(entries)).Some?
      ensures ok ==> entries == Join(old(entries)).value
    {
      hide NulFree;
      ghost var was := entries;
      var q := 0;
      PrependedNothing(Join(was));
      assert entries[0..] == was;
      while q != |entries| - 1
        invariant 0 <= q < |entries|
        invariant forall i :: 0 <= i < |entries| ==> NulFree(entries[i].name)
        invariant Join(was) == Prepended(entries[..q], Join(entries[q..]))
        decreases |entries| - q
      {
        var x := q + 1;
        var lq, lx := entries[q], entries[x];
        CmpPrefix(lq.name, lx.name, Min(|lq.name|, |lx.name|));
        ghost var front, tail := entries[..q], entries[q..];
        if |lq.name| == |lx.name| && FilenameCmp(lq.name, lx.name, |lx.name|) == 0 {
          assert lq.name == lq.name[..|lx.name|] == lx.name;
          if (lq.exact.Some? && lx.exact.Some?) || (lq.inclusive.Some? && lx.inclusive.Some?) {
            return false;
          }
          JoinMerges(tail);
          entries := entries[..q] + [lq.(inclusive := lx.inclusive)] + entries[x + 1..];
          assert entries[..q] == front && entries[q..] == [lq.(inclusive := lx.inclusive)] + tail[2..];
          continue;
        }
        JoinSkips(tail);
        assert tail[1..] == entries[x..];
        PrependedMore(front, lq, Join(entries[x..]));
        assert entries[..x] == front + [lq];
        q := x;
      }
      assert entries == entries[..q] + entries[q..];
      ok := true;
    }

    /** The first entry behind the inclusive entry `q` whose name does not extend that of `q`. */
    method SpanEnd(q: nat) returns (x: nat)
      requires q < |entries| && entries[q].inclusive.Some?
      requires forall i :: q <= i < |entries| ==> NulFree(entries[i].name)
      ensures q < x <= |entries| && UnderHead(entries[q..]) == x - q - 1
    {
      var sentinel := |entries|;
      var lq := entries[q];
      var len := |lq.name|;
      x := q + 1;
      while x != sentinel
        invariant q < x <= sentinel
        invariant forall i :: q < i < x ==> lq.name <= entries[i].name
      {
        var lx := entries[x];
        if len > |lx.name| {
          break;
        }
        CmpPrefix(lq.name, lx.name, len);
        if FilenameCmp(lq.name, lx.name, len) != 0 {
          break;
        }
        x := x + 1;
      }
      SpanFound(entries, q, x);
    }

    /** Moves the entries that extend an inclusive one under it, from position `q` on. */
    method CreateLocationsList(q: nat)
      requires q < |entries| && ListsEmpty(entries[q..])
      requires forall i :: q <= i < |entries| ==> NulFree(entries[i].name)
      modifies this
      ensures entries == old(entries[..q]) + Nest(old(entries[q..]))
      decreases |entries| - q, 1
    {
      hide Nest;
      ghost var was := entries;
      var sentinel := |entries|;
      if q == sentinel - 1 {
        NestLast(was, q);
        return;
      }
      var lq := entries[q];
      if lq.inclusive.None? {
        NestSkip(was, q);
        CreateLocationsList(q + 1);
        return;
      }
      var x := SpanEnd(q);
      var first := q + 1;
      if first == x {
        NestSkip(was, q);
        CreateLocationsList(x);
        return;
      }
      NestSpan(was, q, x);
      MoveUnder(q, x);
      if x == sentinel {
        NoneBehind(was, q, x, entries[q]);
        return;
      }
      PutBack(was, q, x, entries[q]);
      CreateLocationsList(first);
    }

    /** ngx_queue_split and ngx_queue_add: the entries between `q` and `x` move into the list of `q`, and nest. */
    method MoveUnder(q: nat, x: nat)
      requires q + 1 < x <= |entries| && ListsEmpty(entries[q..])
      requires forall i :: q <= i < |entries| ==> NulFree(entries[i].name)
      modifies this
      ensures entries == old(entries[..q] + [entries[q].(list := Nest(entries[q + 1..x]))] + entries[x..])
      decreases |entries| - q, 0
    {
      hide Nest, NulFree, ListsEmpty, UnderHead;
      ghost var was := entries;
      var first := q + 1;
      var lq := entries[q];
      EmptyAt(was, q);
      Moved(was, q, x);
      SubQueue(was, q, x, was[first..][..x - first]);
      // everything behind q goes into its list, the entries that are no extension come back
      var sub := new LocationQueue(lq.list + entries[first..]);
      entries := entries[..first];
      entries := entries + sub.entries[x - first..];
      sub.entries := sub.entries[..x - first];
      NulFreeSlice(was, q, x, sub.entries);
      sub.CreateLocationsList(0);
      entries := entries[q := lq.(list := sub.entries)];
    }

    /** Builds the tree of this queue, taking the queue apart at its middle; `prefix` bytes are shared by all. */
    method CreateLocationsTree(prefix: nat) returns (node: Tree)
      requires entries != [] && Reaches(entries, prefix)
      modifies this
      ensures node == BuildTree(old(entries), prefix)
      decreases entries
    {
      hide BuildTree, Reaches, Searchable;
      ghost var was := entries;
      BuiltNode(was, prefix);
      NoNode(prefix);
      NoNode(|entries[Middle(|entries|)].name|);
      ReachesParts(was, prefix, Middle(|was|));
      var q := Middle(|entries|);
      var lq := entries[q];
      var len := |lq.name| - prefix;
      var left, right, tree := Nil, Nil, Nil;
      var tail := new LocationQueue(entries[q..]);
      entries := entries[..q];
      if entries != [] {
        left := CreateLocationsTree(prefix);
        tail.entries := tail.entries[1..];
        assert tail.entries == was[q + 1..];
        if tail.entries != [] {
          right := tail.CreateLocationsTree(prefix);
        }
      } else {
        assert was[q + 1..] == [];
      }
      if lq.list != [] {
        var sub := new LocationQueue(lq.list);
        tree := sub.CreateLocationsTree(prefix + len);
      }
      node := Node(len % 256, lq.name[prefix..], lq.exact, lq.inclusive, left, right, tree);
    }

    /** Join, nest, build. */
    method BuildStaticTree(ghost decls: seq<LocConf>) returns (ok: bool, tree: Tree)
      requires NulFreeDecls(decls) && AllSortable(EntriesFor(decls))
      requires entries == StaticPart(StableSort(EntriesFor(decls))) && entries != []
      requires forall i :: 0 <= i < |entries| ==> NulFree(entries[i].name)
      requires Joined(decls).Some? ==> Reaches(ForestOf(decls), 0)
      modifies this
      ensures ok <==> Joined(decls).Some?
      ensures if ok then tree == StaticTreeOf(decls) else tree == Nil
    {
      tree := Nil;
      ok := JoinExactLocations();
      if ok {
        JoinedIsReady(decls);
        CreateLocationsList(0);
        tree := CreateLocationsTree(0);
      }
    }
  }

  /** The locations of one server: the queue while its block is parsed, then the tree and the regex array. */
  class ServerLocations {
    var locations: LocationQueue?
    var staticLocations: Tree
    var regexLocations: seq<LocConf>

    ghost predicate Declared(decls: seq<LocConf>)
      reads this, locations
    {
      && NulFreeDecls(decls) && staticLocations == Nil && regexLocations == []
      && if locations == null then decls == [] else locations.entries == EntriesFor(decls)
    }

    constructor ()
      ensures Declared([])
    {
      locations, staticLocations, regexLocations := null, Nil, [];
    }

    method AddLocation(c: LocConf, ghost decls: seq<LocConf>)
      requires Declared(decls) && NulFree(c.name)
      modifies this, locations
      ensures Declared(decls + [c])
      ensures locations != null && (locations == old(locations) || fresh(locations))
    {
      if locations == null {
        locations := new LocationQueue([]);
      }
      var lq := if c.exactMatch || c.regex then Entry(c.name, Some(c), None, []) else Entry(c.name, None, Some(c), []);
      locations.InsertTail(lq);
      assert EntriesFor(decls + [c]) == EntriesFor(decls) + [EntryFor(c)];
    }

    /** Sorts the queue and moves its regexes into an array, in declaration order. */
    method InitLocations(ghost decls: seq<LocConf>)
      requires Declared(decls) && AllSortable(EntriesFor(decls))
      modifies this, locations
      ensures locations == old(locations) && staticLocations == Nil && regexLocations == RegexConfs(decls)
      ensures locations != null ==> locations.entries == StaticPart(StableSort(EntriesFor(decls)))
    {
      hide StableSort, EntryFor, RegexStart, IsRegex, StaticPart;
      if locations == null {
        return;
      }
      locations.Sort();
      SortedQueueSplits(decls);
      SortedRegexColumn(decls);
      regexLocations := locations.CutRegexes();
    }

    /** Joins, nests and builds the tree; false for a duplicate location. */
    method InitStaticLocationTrees(ghost decls: seq<LocConf>) returns (ok: bool)
      requires NulFreeDecls(decls) && AllSortable(EntriesFor(decls))
      requires if locations == null then decls == []
               else locations.entries == StaticPart(StableSort(EntriesFor(decls)))
      requires staticLocations == Nil
      modifies this`staticLocations, locations
      ensures ok <==> DuplicateFree(decls)
      ensures ok ==> Joined(decls).Some? && Reaches(ForestOf(decls), 0) && staticLocations == StaticTreeOf(decls)
    {
      BuildsIffDuplicateFree(decls);
      if locations == null {
        NoStatics(decls);
        return true;
      }
      if locations.entries == [] {
        NoStatics(decls);
        return true;
      }
      JoinableNames(decls);
      ok, staticLocations := locations.BuildStaticTree(decls);
    }

    /** Everything core_server does with the locations of a closed server block. */
    method Finish(ghost decls: seq<LocConf>) returns (ok: bool)
      requires Declared(decls)
      modifies this, locations
      ensures ok <==> DuplicateFree(decls)
      ensures ok ==> Serves(decls)
    {
      EntriesAreFresh(decls);
      InitLocations(decls);
      ok := InitStaticLocationTrees(decls);
    }

    /** The state in which requests find the server. */
    ghost predicate Serves(decls: seq<LocConf>)
      reads this
    {
      && NulFreeDecls(decls) && Joined(decls).Some? && Reaches(ForestOf(decls), 0)
      && staticLocations == StaticTreeOf(decls) && regexLocations == RegexConfs(decls)
    }

    /** The search loop; `init` is what the caller's pointer held, `compared` counts the nodes that are looked at. */
    method FindStaticLocation(uri: Str, init: Option<LocConf>)
      returns (rc: Rc, hdclcf: Option<LocConf>, ghost compared: nat)
      requires Searchable(staticLocations)
      ensures (rc, hdclcf) == StaticOutcome(Search(staticLocations, uri, NoMatch), init)
      ensures compared == LocationCost.Comparisons(staticLocations, uri)
    {
      compared := 0;
      var len, rest := |uri|, uri;
      var rv := NGX_DECLINED;
      hdclcf := init;
      var node := staticLocations;
      ghost var found := NoMatch;
      while node.Node?
        invariant Searchable(node) && len == |rest|
        invariant (rv, hdclcf) == StaticOutcome(found, init) && !found.Exact?
        invariant Search(node, rest, found) == Search(staticLocations, uri, NoMatch)
        invariant compared + LocationCost.Comparisons(node, rest) == LocationCost.Comparisons(staticLocations, uri)
        decreases node
      {
        var n := if len <= node.len then len else node.len;
        var cmp := FilenameCmp(rest, node.name, n);
        compared := compared + 1;
        if cmp != 0 {
          node := if cmp < 0 then node.left else node.right;
          continue;
        }
        if len > node.len {
          if node.inclusive.Some? {
            hdclcf := node.inclusive;
            rv := NGX_AGAIN;
            found := Inclusive(node.inclusive.value);
            node := node.tree;
            rest := rest[n..];
            len := len - n;
            continue;
          }
          node := node.right;
          continue;
        }
        if len == node.len {
          if node.exact.Some? {
            return NGX_OK, node.exact, compared;
          } else {
            return NGX_AGAIN, node.inclusive, compared;
          }
        }
        node := node.left;
      }
      rc := rv;
    }

    /** The static search, then the regexes unless an exact or a "^~" location was found. */
    method FindLocation(uri: Str, exec: (LocConf, Str) -> RegexResult, init: Option<LocConf>)
      returns (rc: Rc, hdclcf: Option<LocConf>)
      requires Searchable(staticLocations)
      ensures var found := Search(staticLocations, uri, NoMatch);
              match Decide(found, regexLocations, uri, exec)
              case Ok(c) => rc == NGX_OK && hdclcf == Some(c)
              case Again(c) => rc == NGX_AGAIN && hdclcf == Some(c)
              case Declined => rc == NGX_DECLINED && hdclcf == init
              case Error => rc == NGX_ERROR && hdclcf == StaticOutcome(found, init).1
    {
      var noregex := false;
      ghost var compared;
      rc, hdclcf, compared := FindStaticLocation(uri, init);
      if rc == NGX_AGAIN {
        noregex := hdclcf.value.noregex;
      }
      if rc == NGX_OK {
        return;
      }
      if !noregex {
        var i := 0;
        while i < |regexLocations|
          invariant 0 <= i <= |regexLocations|
          invariant FirstRegex(regexLocations, uri, exec) == FirstRegex(regexLocations[i..], uri, exec)
        {
          match exec(regexLocations[i], uri) {
            case Matched =>
              return NGX_OK, Some(regexLocations[i]);
            case NotMatched =>
            case Failed =>
              rc := NGX_ERROR;
              return;
          }
          assert regexLocations[i..][1..] == regexLocations[i + 1..];
          i := i + 1;
        }
      }
    }
  }

  function StaticOutcome(found: StaticMatch, init: Option<LocConf>): (Rc, Option<LocConf>) {
    match found
    case Exact(c) => (NGX_OK, Some(c))
    case Inclusive(c) => (NGX_AGAIN, Some(c))
    case NoMatch => (NGX_DECLINED, init)
  }

  lemma SortedRegexColumn(decls: seq<LocConf>)
    requires NulFreeDecls(decls) && AllSortable(EntriesFor(decls))
    ensures var t := StableSort(EntriesFor(decls));
            var tail := t[RegexStart(t)..];
            (forall i :: 0 <= i < |tail| ==> tail[i].exact.Some?) && ExactColumn(tail) == RegexConfs(decls)
  {
    SortedQueueSplits(decls);
    var t := StableSort(EntriesFor(decls));
    RegexColumn(decls, t[RegexStart(t)..]);
  }

  lemma NoStatics(decls: seq<LocConf>)
    requires NulFreeDecls(decls) && AllSortable(EntriesFor(decls))
    requires decls == [] || StaticPart(StableSort(EntriesFor(decls))) == []
    ensures Joined(decls) == Some([]) && ForestOf(decls) == [] && StaticTreeOf(decls) == Nil
  {
  }

  lemma JoinableNames(decls: seq<LocConf>)
    requires NulFreeDecls(decls) && AllSortable(EntriesFor(decls))
    ensures var q := StaticPart(StableSort(EntriesFor(decls)));
            forall i :: 0 <= i < |q| ==> NulFree(q[i].name)
  {
    EntriesAreFresh(decls);
    SortedIsFresh(EntriesFor(decls));
    var t := StableSort(EntriesFor(decls));
    forall i | 0 <= i < |StaticPart(t)| ensures NulFree(StaticPart(t)[i].name) {
      assert Fresh(t[i]);
    }
  }

  lemma JoinedIsReady(decls: seq<LocConf>)
    requires NulFreeDecls(decls) && Joined(decls).Some? && AllSortable(EntriesFor(decls))
    requires StaticPart(StableSort(EntriesFor(decls))) != []
    ensures var q := Joined(decls).value;
            && q != [] && ForestOf(decls) != [] && ListsEmpty(q) && ListsEmpty(q[0..]) && q[0..] == q
            && (forall i :: 0 <= i < |q| ==> NulFree(q[i].name))
            && q[..0] + Nest(q[0..]) == ForestOf(decls)
  {
    JoinedIsWellNamed(decls);
    var q := Joined(decls).value;
    assert q[0..] == q && q[..0] + Nest(q) == Nest(q);
    forall i | 0 <= i < |q| ensures q[i].list == [] && NulFree(q[i].name) {
      assert WellNamed(q[i]);
    }
  }

  /** What FindLocation decides, by its contract, is what the declarations prescribe, and they prescribe one thing. */
  ghost predicate DecidesRight(decls: seq<LocConf>, uri: Str, exec: (LocConf, Str) -> RegexResult)
    requires NulFreeDecls(decls) && Joined(decls).Some? && Reaches(ForestOf(decls), 0)
  {
    var d := Decide(Search(StaticTreeOf(decls), uri, NoMatch), RegexConfs(decls), uri, exec);
    Prescribes(decls, uri, exec, d) && forall d' :: Prescribes(decls, uri, exec, d') ==> d' == d
  }

  /** On a server whose suffixes fit every decision is right. */
  lemma DecisionIsPrescribed(decls: seq<LocConf>, uri: Str, exec: (LocConf, Str) -> RegexResult)
    requires NulFreeDecls(decls) && DuplicateFree(decls) && AllFitInByte(decls)
    ensures Joined(decls).Some? && Reaches(ForestOf(decls), 0) && DecidesRight(decls, uri, exec)
  {
    BuildsIffDuplicateFree(decls);
    FittingAnswersRight(decls, uri);
    hide Search, StaticTreeOf, ForestOf, Decide, Prescribes;
    var found := Search(StaticTreeOf(decls), uri, NoMatch);
    DecidedIsPrescribed(decls, uri, exec, found);
    var d := Decide(found, RegexConfs(decls), uri, exec);
    forall d' | Prescribes(decls, uri, exec, d') ensures d' == d {
      PrescribedIsOne(decls, uri, exec, d', d);
    }
  }

  function MatchesNothing(): (LocConf, Str) -> RegexResult {
    (_, _) => NotMatched
  }

  lemma {:induction false} NoRegexMatches(regexes: seq<LocConf>, uri: Str)
    ensures FirstRegex(regexes, uri, MatchesNothing()).None?
  {
    if regexes != [] {
      NoRegexMatches(regexes[1..], uri);
    }
  }

  /** When no regex matches a prescribed decision shows what the static locations say. */
  lemma DecisionShowsStatic(decls: seq<LocConf>, found: StaticMatch, uri: Str)
    requires Prescribes(decls, uri, MatchesNothing(), Decide(found, RegexConfs(decls), uri, MatchesNothing()))
    ensures IsStaticAnswer(ExactConfs(decls), PrefixConfs(decls), uri, found)
  {
    NoRegexMatches(RegexConfs(decls), uri);
    assert NoneStrikes(decls, uri, MatchesNothing());
    OneStrikes(decls, uri, MatchesNothing());
    StaticsAre(decls, uri);
    hide Strikes, NoneStrikes, RegexConfs, MatchesNothing, FirstRegex;
  }

  lemma WrongAnswerWrongDecision(decls: seq<LocConf>, uri: Str)
    requires NulFreeDecls(decls) && Joined(decls).Some? && Reaches(ForestOf(decls), 0) && !AnswersRight(decls, uri)
    ensures !DecidesRight(decls, uri, MatchesNothing())
  {
    var found := Search(StaticTreeOf(decls), uri, NoMatch);
    hide RegexConfs, Search, Prescribes, Decide;
    if Prescribes(decls, uri, MatchesNothing(), Decide(found, RegexConfs(decls), uri, MatchesNothing())) {
      DecisionShowsStatic(decls, found, uri);
    }
  }

  /**
   Main theorem about the whole lookup: a server that builds decides for every URI and with every regex engine as
   its declarations prescribe if and only if every static name, or what it adds to some declared inclusive prefix
   of it, is shorter than 256 bytes.
   */
  lemma DecisionsPrescribedIffSuffixesFit(decls: seq<LocConf>)
    requires NulFreeDecls(decls) && DuplicateFree(decls)
    ensures Joined(decls).Some? && Reaches(ForestOf(decls), 0)
    ensures (forall uri: Str, exec: (LocConf, Str) -> RegexResult :: DecidesRight(decls, uri, exec)) <==>
            AllFitInByte(decls)
  {
    hide Joined, DecidesRight, AnswersRight, AllFitInByte;
    BuildsIffDuplicateFree(decls);
    if AllFitInByte(decls) {
      forall uri: Str, exec: (LocConf, Str) -> RegexResult ensures DecidesRight(decls, uri, exec) {
        DecisionIsPrescribed(decls, uri, exec);
      }
    } else {
      var uri := UnfitAnswersWrong(decls);
      WrongAnswerWrongDecision(decls, uri);
    }
  }

  ghost function Prepended(front: seq<Entry>, r: Option<seq<Entry>>): Option<seq<Entry>> {
    match r
    case None => None
    case Some(back) => Some(front + back)
  }

  lemma PrependedMore(front: seq<Entry>, e: Entry, r: Option<seq<Entry>>)
    ensures Prepended(front, Prepended([e], r)) == Prepended(front + [e], r)
  {
    if r.Some? {
      assert front + ([e] + r.value) == front + [e] + r.value;
    }
  }

  lemma SubQueue(was: seq<Entry>, q: nat, x: nat, sub: seq<Entry>)
    requires q + 1 < x <= |was| && sub == was[q + 1..][..x - q - 1] && ListsEmpty(was[q..])
    ensures sub == was[q + 1..x] && sub[0..] == sub && sub[..0] + Nest(sub) == Nest(sub)
    ensures ListsEmpty(sub[0..])
  {
    forall i | 0 <= i < |sub| ensures sub[i].list == [] {
      assert sub[i] == was[q..][i + 1];
    }
  }

  lemma EmptyAt(was: seq<Entry>, q: nat)
    requires q < |was| && ListsEmpty(was[q..])
    ensures was[q].list == []
  {
    assert was[q..][0] == was[q];
  }

  lemma NulFreeSlice(was: seq<Entry>, q: nat, x: nat, sub: seq<Entry>)
    requires q + 1 < x <= |was| && sub == was[q + 1..x] && forall i :: q <= i < |was| ==> NulFree(was[i].name)
    ensures forall i :: 0 <= i < |sub| ==> NulFree(sub[i].name)
  {
    hide NulFree;
  }

  /** The queue while entries move: out behind `q`, and back from `x` on. */
  lemma Moved(was: seq<Entry>, q: nat, x: nat)
    requires q + 1 < x <= |was|
    ensures [] + was[q + 1..] == was[q + 1..]
    ensures was[..q + 1] + was[q + 1..][x - q - 1..] == was[..q + 1] + was[x..]
    ensures forall e :: (was[..q + 1] + was[x..])[q := e] == was[..q] + [e] + was[x..]
  {
    forall e ensures (was[..q + 1] + was[x..])[q := e] == was[..q] + [e] + was[x..] {
      assert was[..q + 1][q := e] == was[..q] + [e];
    }
  }

  lemma PutBack(was: seq<Entry>, q: nat, x: nat, e: Entry)
    requires q < x <= |was|
    ensures var s := was[..q] + [e] + was[x..];
            s[q] == e && s[..q + 1] == was[..q] + [e] && s[q + 1..] == was[x..]
  {
  }

  lemma NoneBehind(was: seq<Entry>, q: nat, x: nat, e: Entry)
    requires q < x == |was|
    ensures was[..q] + [e] + was[x..] == was[..q] + [e] + Nest(was[x..])
  {
  }

  lemma PrependedNothing(r: Option<seq<Entry>>)
    ensures Prepended([], r) == r
  {
    if r.Some? {
      assert [] + r.value == r.value;
    }
  }

  lemma JoinMerges(q: seq<Entry>)
    requires |q| > 1 && q[0].name == q[1].name && !SameKind(q[0], q[1])
    ensures Join(q) == Join([q[0].(inclusive := q[1].inclusive)] + q[2..])
  {
  }

  lemma JoinSkips(q: seq<Entry>)
    requires |q| > 1 && q[0].name != q[1].name
    ensures Join(q) == Prepended([q[0]], Join(q[1..]))
  {
  }

  lemma InsertStart(t: seq<Entry>, x: Entry)
    requires AllSortable(t) && Sortable(x)
    ensures Insert(t, x) == Insert(t[..|t|], x) + t[|t|..]
  {
    assert t[..|t|] == t && t[|t|..] == [];
    assert Insert(t, x) + [] == Insert(t, x);
  }

  lemma InsertLast(t: seq<Entry>, x: Entry)
    requires AllSortable(t) && Sortable(x) && t != [] && !NotAfter(t[|t| - 1], x)
    ensures AllSortable(t[..|t| - 1]) && Insert(t, x) == Insert(t[..|t| - 1], x) + [t[|t| - 1]]
  {
    hide CmpLocations, Sortable;
  }

  lemma InsertPass(t: seq<Entry>, x: Entry, p: nat)
    requires AllSortable(t) && Sortable(x) && 0 < p <= |t| && !NotAfter(t[p - 1], x)
    requires Insert(t, x) == Insert(t[..p], x) + t[p..]
    ensures Insert(t, x) == Insert(t[..p - 1], x) + t[p - 1..]
  {
    hide NotAfter, Sortable, Insert;
    PrefixSortable(t, p);
    hide AllSortable;
    Cut(t, p, Insert(t[..p - 1], x));
    InsertLast(t[..p], x);
  }

  lemma PrefixSortable(t: seq<Entry>, p: nat)
    requires AllSortable(t) && 0 < p <= |t|
    ensures AllSortable(t[..p]) && AllSortable(t[..p - 1]) && Sortable(t[p - 1])
  {
    hide Sortable;
  }

  lemma Cut<T>(t: seq<T>, p: nat, r: seq<T>)
    requires 0 < p <= |t|
    ensures t[..p][..p - 1] == t[..p - 1] && t[..p][p - 1] == t[p - 1]
    ensures r + [t[p - 1]] + t[p..] == r + t[p - 1..]
  {
  }

  lemma InsertStop(t: seq<Entry>, x: Entry, p: nat)
    requires AllSortable(t) && Sortable(x) && p <= |t| && (p == 0 || NotAfter(t[p - 1], x))
    requires Insert(t, x) == Insert(t[..p], x) + t[p..]
    ensures Insert(t, x) == t[..p] + [x] + t[p..]
  {
  }

  lemma StableSortSnoc(s: seq<Entry>, i: nat)
    requires AllSortable(s) && i < |s|
    ensures StableSort(s[..i + 1]) == Insert(StableSort(s[..i]), s[i])
  {
    assert s[..i + 1][..i] == s[..i];
  }

  lemma NestLast(was: seq<Entry>, q: nat)
    requires |was| == q + 1 && was[q].list == []
    ensures was[..q] + Nest(was[q..]) == was
  {
    assert was[q..] == [was[q]] && was[q].(list := []) == was[q];
    assert was == was[..q] + [was[q]];
  }

  /** The head takes nothing under it. */
  lemma NestSkip(was: seq<Entry>, q: nat)
    requires q < |was| && was[q].list == [] && UnderHead(was[q..]) == 0
    ensures was[..q] + Nest(was[q..]) == was[..q + 1] + Nest(was[q + 1..])
  {
    NestSpan(was, q, q + 1);
    assert was[q].(list := []) == was[q];
    assert was[..q + 1] == was[..q] + [was[q]];
  }

  /** The head takes the entries up to `x` under it. */
  lemma NestSpan(was: seq<Entry>, q: nat, x: nat)
    requires q < x <= |was| && UnderHead(was[q..]) == x - q - 1
    ensures was[..q] + Nest(was[q..]) == was[..q] + [was[q].(list := Nest(was[q + 1..x]))] + Nest(was[x..])
  {
    assert was[q..][1..x - q] == was[q + 1..x];
    assert was[q..][x - q..] == was[x..];
  }

  lemma {:induction false} SpanFound(was: seq<Entry>, q: nat, x: nat)
    requires q < x <= |was| && was[q].inclusive.Some?
    requires forall i :: q < i < x ==> was[q].name <= was[i].name
    requires x == |was| || !(was[q].name <= was[x].name)
    ensures UnderHead(was[q..]) == x - q - 1
  {
    assert was[q..][1..] == was[q + 1..];
    SpanIs(was[q + 1..], was[q].name, x - q - 1);
  }

  lemma {:induction false} SpanIs(q: seq<Entry>, name: Str, n: nat)
    requires n <= |q| && (forall i :: 0 <= i < n ==> name <= q[i].name)
    requires n == |q| || !(name <= q[n].name)
    ensures SpanUnder(q, name) == n
  {
    var m := SpanUnder(q, name);
    if m < n || n < m {
      assert false;
    }
  }
}
