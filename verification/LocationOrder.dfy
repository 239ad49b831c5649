/** Permuting the `location` directives of a server does not change the static tree that is built. */
module LocationOrder {
  import opened Bytes
  import opened FilenameOrder
  import opened LocationSpec
  import opened LocationCompiler
  import opened LocationTree
  import opened LocationTheorems

  lemma DuplicateFreePermutes(a: seq<LocConf>, b: seq<LocConf>)
    requires multiset(a) == multiset(b) && DuplicateFree(a)
    ensures DuplicateFree(b)
  {
    forall i, j | 0 <= i < j < |b| ensures !Duplicated(b[i], b[j]) {
      if Duplicated(b[i], b[j]) {
        var k := InMultiset(b, a, i);
        var l := InMultiset(b, a, j);
        if b[i] == b[j] {
          assert b == b[..j] + [b[j]] + b[j + 1..] && b[..j][i] == b[i];
          assert b[i] in multiset(b[..j]);
          var x, y := TwoOccurrences(a, b[i]);
        } else {
          assert Duplicated(a[k], a[l]) && Duplicated(a[l], a[k]);
        }
        assert false;
      }
    }
  }

  /** An entry of a joined queue is determined by its name and the confs of the queue. */
  lemma EntryFromConfs(q1: seq<Entry>, q2: seq<Entry>, i: nat) returns (j: nat)
    requires AllWellNamed(q1) && AllWellNamed(q2) && StrictlySorted(q1) && StrictlySorted(q2)
    requires ExactsOf(q1) == ExactsOf(q2) && PrefixesOf(q1) == PrefixesOf(q2) && i < |q1|
    ensures j < |q2| && q2[j] == q1[i]
  {
    var e := q1[i];
    assert WellNamed(e);
    var c := ConfOf(e);
    assert c in ExactsOf(q2) + PrefixesOf(q2) by {
      assert e in q1;
    }
    var d :| d in q2 && (d.exact == Some(c) || d.inclusive == Some(c));
    j :| 0 <= j < |q2| && q2[j] == d;
    assert WellNamed(d) && d.name == e.name;
    SameConfs(q1, q2, i, j);
    SameConfs(q2, q1, j, i);
  }

  lemma SameConfs(q1: seq<Entry>, q2: seq<Entry>, i: nat, j: nat)
    requires AllWellNamed(q1) && AllWellNamed(q2) && StrictlySorted(q2)
    requires ExactsOf(q1) == ExactsOf(q2) && PrefixesOf(q1) == PrefixesOf(q2)
    requires i < |q1| && j < |q2| && q1[i].name == q2[j].name
    ensures q1[i].exact.Some? ==> q2[j].exact == q1[i].exact
    ensures q1[i].inclusive.Some? ==> q2[j].inclusive == q1[i].inclusive
  {
    assert q1[i] in q1 && WellNamed(q1[i]);
    BeforeIrreflexive(q2[j].name);
    if q1[i].exact.Some? {
      assert q1[i].exact.value in ExactsOf(q2);
      var d :| d in q2 && d.exact == q1[i].exact;
      var k :| 0 <= k < |q2| && q2[k] == d;
      assert WellNamed(q2[k]);
      assert k == j;
    }
    if q1[i].inclusive.Some? {
      assert q1[i].inclusive.value in PrefixesOf(q2);
      var d :| d in q2 && d.inclusive == q1[i].inclusive;
      var k :| 0 <= k < |q2| && q2[k] == d;
      assert WellNamed(q2[k]);
      assert k == j;
    }
  }

  lemma HeadIsMember(q: seq<Entry>)
    requires q != []
    ensures q[0] in q
  {
  }

  lemma {:induction false} SortedByContent(q1: seq<Entry>, q2: seq<Entry>)
    requires StrictlySorted(q1) && StrictlySorted(q2)
    requires forall e :: e in q1 <==> e in q2
    ensures q1 == q2
    decreases |q1|
  {
    if q1 == [] {
      if q2 != [] {
        HeadIsMember(q2);
        assert false;
      }
    } else {
      SameFirst(q1, q2);
      forall e ensures e in q1[1..] <==> e in q2[1..] {
        NotAgain(q1, e);
        NotAgain(q2, e);
      }
      SortedByContent(q1[1..], q2[1..]);
      assert q1 == [q1[0]] + q1[1..] && q2 == [q2[0]] + q2[1..];
    }
  }

  lemma NotAgain(q: seq<Entry>, e: Entry)
    requires StrictlySorted(q) && q != []
    ensures e in q[1..] <==> e in q && e != q[0]
  {
    BeforeIrreflexive(q[0].name);
    if e in q[1..] {
      var i :| 0 <= i < |q[1..]| && q[1..][i] == e;
      assert q[i + 1] == e;
    }
    if e in q && e != q[0] {
      var i :| 0 <= i < |q| && q[i] == e;
      assert q[1..][i - 1] == e;
    }
  }

  lemma SameFirst(q1: seq<Entry>, q2: seq<Entry>)
    requires StrictlySorted(q1) && StrictlySorted(q2) && q1 != []
    requires forall e :: e in q1 <==> e in q2
    ensures q2 != [] && q1[0] == q2[0]
  {
    assert q1[0] in q2;
    var i :| 0 <= i < |q2| && q2[i] == q1[0];
    assert q2[0] in q1;
    var j :| 0 <= j < |q1| && q1[j] == q2[0];
    if i > 0 && j > 0 {
      BeforeAsymmetric(q1[0].name, q1[j].name);
      assert false;
    }
  }

  lemma SameConfSets(a: seq<LocConf>, b: seq<LocConf>)
    requires multiset(a) == multiset(b)
    ensures ExactConfs(a) == ExactConfs(b) && PrefixConfs(a) == PrefixConfs(b)
  {
    forall c ensures c in a <==> c in b {
      assert c in multiset(a) <==> c in multiset(b);
    }
  }

  lemma SameQueue(q1: seq<Entry>, q2: seq<Entry>)
    requires AllWellNamed(q1) && AllWellNamed(q2) && StrictlySorted(q1) && StrictlySorted(q2)
    requires ExactsOf(q1) == ExactsOf(q2) && PrefixesOf(q1) == PrefixesOf(q2)
    ensures q1 == q2
  {
    forall e ensures e in q1 <==> e in q2 {
      if e in q1 {
        var i :| 0 <= i < |q1| && q1[i] == e;
        var j := EntryFromConfs(q1, q2, i);
      }
      if e in q2 {
        var i :| 0 <= i < |q2| && q2[i] == e;
        var j := EntryFromConfs(q2, q1, i);
      }
    }
    SortedByContent(q1, q2);
  }

  /**
   The order of the static declarations never changes whether a server builds, nor the queue its tree is built from;
   and when the regexes keep their order, no decision about any URI with any regex engine.
   */
  lemma OrderOfStaticsIrrelevant(a: seq<LocConf>, b: seq<LocConf>)
    requires NulFreeDecls(a) && NulFreeDecls(b) && multiset(a) == multiset(b)
    ensures Joined(a) == Joined(b)
    ensures Joined(a).Some? ==> Reaches(ForestOf(a), 0) && Reaches(ForestOf(b), 0)
    ensures Joined(a).Some? && RegexConfs(a) == RegexConfs(b) ==>
              forall uri: Str, exec: (LocConf, Str) -> RegexResult ::
                Decide(Search(StaticTreeOf(a), uri, NoMatch), RegexConfs(a), uri, exec)
                == Decide(Search(StaticTreeOf(b), uri, NoMatch), RegexConfs(b), uri, exec)
  {
    SameJoined(a, b);
    BuildsIffDuplicateFree(a);
    BuildsIffDuplicateFree(b);
  }

  lemma SameJoined(a: seq<LocConf>, b: seq<LocConf>)
    requires NulFreeDecls(a) && NulFreeDecls(b) && multiset(a) == multiset(b)
    ensures Joined(a) == Joined(b)
  {
    BuildsIffDuplicateFree(a);
    BuildsIffDuplicateFree(b);
    if DuplicateFree(a) {
      DuplicateFreePermutes(a, b);
      SameConfSets(a, b);
      JoinedIsWellNamed(a);
      JoinedIsWellNamed(b);
      SameQueue(Joined(a).value, Joined(b).value);
    } else if DuplicateFree(b) {
      DuplicateFreePermutes(b, a);
    }
  }
}
