/**
 Nesting (create_locations_list): entries whose names extend an inclusive entry's name move into its list.
 */
module LocationForest {
  import opened Bytes
  import opened FilenameOrder
  import opened LocationCompiler

  ghost predicate ListsEmpty(q: seq<Entry>) {
    forall i :: 0 <= i < |q| ==> q[i].list == []
  }

  /** How many leading entries of `q` have `name` as a prefix of theirs. */
  function SpanUnder(q: seq<Entry>, name: Str): (n: nat)
    ensures n <= |q|
    ensures forall i :: 0 <= i < n ==> name <= q[i].name
    ensures n < |q| ==> !(name <= q[n].name)
  {
    if q == [] || !(name <= q[0].name) then 0 else 1 + SpanUnder(q[1..], name)
  }

  /** How many entries move under the head: none unless it is inclusive. */
  function UnderHead(q: seq<Entry>): (n: nat)
    requires q != []
    ensures n < |q|
  {
    if q[0].inclusive.None? then 0 else SpanUnder(q[1..], q[0].name)
  }

  function Nest(q: seq<Entry>): seq<Entry>
    decreases |q|
  {
    if q == [] then []
    else
      var n := UnderHead(q);
      [q[0].(list := Nest(q[1..1 + n]))] + Nest(q[1 + n..])
  }

  /** The forest read in preorder, each entry without its list. */
  function Flatten(forest: seq<Entry>): seq<Entry>
    decreases forest
  {
    if forest == [] then []
    else [forest[0].(list := [])] + Flatten(forest[0].list) + Flatten(forest[1..])
  }

  lemma {:induction false} FlattenConcat(a: seq<Entry>, b: seq<Entry>)
    ensures Flatten(a + b) == Flatten(a) + Flatten(b)
    decreases |a|
  {
    if a == [] {
      assert a + b == b;
    } else {
      assert (a + b)[1..] == a[1..] + b;
      FlattenConcat(a[1..], b);
    }
  }

  /** Nesting loses, adds and reorders nothing. */
  lemma {:induction false} NestFlattens(q: seq<Entry>)
    requires ListsEmpty(q)
    ensures Flatten(Nest(q)) == q
    decreases |q|
  {
    if q != [] {
      var n := UnderHead(q);
      var under, rest := q[1..1 + n], q[1 + n..];
      NestFlattens(under);
      NestFlattens(rest);
      FlattenNestCons(q);
      HeadUnderRest(q, n);
    }
  }

  lemma FlattenCons(e: Entry, rest: seq<Entry>)
    ensures Flatten([e] + rest) == [e.(list := [])] + Flatten(e.list) + Flatten(rest)
  {
    assert ([e] + rest)[1..] == rest;
  }

  lemma FlattenNestCons(q: seq<Entry>)
    requires ListsEmpty(q) && q != []
    ensures var n := UnderHead(q);
            Flatten(Nest(q)) == [q[0]] + Flatten(Nest(q[1..1 + n])) + Flatten(Nest(q[1 + n..]))
  {
    var n := UnderHead(q);
    FlattenCons(q[0].(list := Nest(q[1..1 + n])), Nest(q[1 + n..]));
    assert q[0].(list := []) == q[0];
  }

  lemma HeadUnderRest(q: seq<Entry>, n: nat)
    requires n < |q|
    ensures q == [q[0]] + q[1..1 + n] + q[1 + n..]
  {
  }

  predicate Below(p: Option<Str>, name: Str) {
    match p
    case None => true
    case Some(s) => s < name
  }

  ghost predicate PrefixFree(level: seq<Entry>) {
    forall i, j :: 0 <= i < |level| && 0 <= j < |level| && i != j && level[i].inclusive.Some? ==>
      !(level[i].name <= level[j].name)
  }

  /**
   A level of the nested queue under the inclusive name `p` (None at the top): sorted, no inclusive entry a
   prefix of another entry of the level, and everything under an entry a proper extension of its name.
   */
  ghost predicate Level(level: seq<Entry>, p: Option<Str>)
    decreases level
  {
    && StrictlySorted(level) && PrefixFree(level)
    && (forall i :: 0 <= i < |level| ==>
          && WellNamed(level[i]) && Below(p, level[i].name)
          && (level[i].list != [] ==> level[i].inclusive.Some?)
          && Level(level[i].list, Some(level[i].name)))
  }

  ghost predicate AllBelow(q: seq<Entry>, p: Option<Str>) {
    forall i :: 0 <= i < |q| ==> Below(p, q[i].name)
  }

  /** The top entries of a nested queue are entries of the queue. */
  lemma {:induction false} NestTops(q: seq<Entry>, i: nat) returns (j: nat)
    requires ListsEmpty(q) && i < |Nest(q)|
    ensures j < |q| && q[j] == Nest(q)[i].(list := [])
    decreases |q|
  {
    j := 0;
    if i > 0 {
      var rest := q[1 + UnderHead(q)..];
      j := NestTops(rest, i - 1);
      j := 1 + UnderHead(q) + j;
    }
  }

  /** The entries after the span of an inclusive head do not extend the head's name. */
  lemma BeyondSpan(q: seq<Entry>, j: nat)
    requires StrictlySorted(q) && q != []
    requires 1 + SpanUnder(q[1..], q[0].name) <= j < |q|
    ensures !(q[0].name <= q[j].name)
  {
    var n := SpanUnder(q[1..], q[0].name);
    assert q[1..][n] == q[1 + n];
    if q[0].name <= q[j].name && j > 1 + n {
      PrefixContiguous(q[0].name, q[1 + n].name, q[j].name);
      assert false;
    }
  }

  lemma LaterIsNoPrefix(a: Str, b: Str)
    requires Before(a, b)
    ensures !(b <= a)
  {
    BeforeAsymmetric(a, b);
    if b <= a {
      PrefixBefore(b, a);
    }
  }

  lemma ConsLevel(h: Entry, rest: seq<Entry>, p: Option<Str>)
    requires Level(rest, p)
    requires WellNamed(h) && Below(p, h.name) && (h.list != [] ==> h.inclusive.Some?) && Level(h.list, Some(h.name))
    requires forall i :: 0 <= i < |rest| ==> Before(h.name, rest[i].name)
    requires h.inclusive.Some? ==> forall i :: 0 <= i < |rest| ==> !(h.name <= rest[i].name)
    ensures Level([h] + rest, p)
  {
    var level := [h] + rest;
    forall i, j | 0 <= i < |level| && 0 <= j < |level| && i != j && level[i].inclusive.Some?
      ensures !(level[i].name <= level[j].name)
    {
      if j == 0 {
        LaterIsNoPrefix(h.name, level[i].name);
      }
    }
  }

  lemma UnderSpan(q: seq<Entry>)
    requires AllWellNamed(q) && ListsEmpty(q) && StrictlySorted(q) && q != []
    ensures var under := q[1..1 + UnderHead(q)];
            AllWellNamed(under) && ListsEmpty(under) && StrictlySorted(under) && AllBelow(under, Some(q[0].name))
  {
    var under := q[1..1 + UnderHead(q)];
    forall i | 0 <= i < |under| ensures Below(Some(q[0].name), under[i].name) {
      assert under[i] == q[1..][i];
      BeforeAsymmetric(q[0].name, q[1 + i].name);
    }
  }

  lemma HeadBeforeRest(q: seq<Entry>, i: nat)
    requires ListsEmpty(q) && StrictlySorted(q) && q != []
    requires i < |Nest(q[1 + UnderHead(q)..])|
    ensures var e := Nest(q[1 + UnderHead(q)..])[i];
            Before(q[0].name, e.name) && (q[0].inclusive.Some? ==> !(q[0].name <= e.name))
  {
    hide Nest;
    var n := UnderHead(q);
    var j := NestTops(q[1 + n..], i);
    if q[0].inclusive.Some? {
      BeyondSpan(q, 1 + n + j);
    }
  }

  /** A strictly sorted queue nests into a level. */
  lemma {:induction false} NestLevel(q: seq<Entry>, p: Option<Str>)
    requires AllWellNamed(q) && ListsEmpty(q) && StrictlySorted(q) && AllBelow(q, p)
    ensures Level(Nest(q), p)
    decreases |q|
  {
    if q != [] {
      var n := UnderHead(q);
      var under, rest := q[1..1 + n], q[1 + n..];
      UnderSpan(q);
      NestLevel(under, Some(q[0].name));
      NestLevel(rest, p);
      var h := q[0].(list := Nest(under));
      forall i | 0 <= i < |Nest(rest)|
        ensures Before(h.name, Nest(rest)[i].name)
        ensures h.inclusive.Some? ==> !(h.name <= Nest(rest)[i].name)
      {
        HeadBeforeRest(q, i);
      }
      ConsLevel(h, Nest(rest), p);
    }
  }
}
