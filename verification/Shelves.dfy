/**
 Several lists threaded through one field of the slots of one pool: bucket chains and a free list, or the waiting
 lists of all records and a free list. A slot is on one list at most.
 */
module Shelves {
  import opened FreeList

  ghost predicate Apart(lists: seq<seq<nat>>) {
    forall i, j, x :: 0 <= i < |lists| && 0 <= j < |lists| && x in lists[i] && x in lists[j] ==> i == j
  }

  ghost predicate Shelved<D>(cells: seq<Data<D>>, heads: seq<Data<D>>, lists: seq<seq<nat>>) {
    && |heads| == |lists|
    && (forall i :: 0 <= i < |lists| ==> Threaded(cells, lists[i], heads[i]))
    && Apart(lists)
  }

  ghost predicate OnNone(lists: seq<seq<nat>>, x: nat) {
    forall i :: 0 <= i < |lists| ==> x !in lists[i]
  }

  lemma ShelfHead<D>(cells: seq<Data<D>>, heads: seq<Data<D>>, lists: seq<seq<nat>>, i: nat)
    requires Shelved(cells, heads, lists) && i < |lists|
    ensures heads[i] == if lists[i] == [] then Null else Next(lists[i][0])
    ensures forall k :: 0 <= k < |lists[i]| ==> lists[i][k] < |cells|
  {
    ThreadedHead(cells, lists[i], heads[i]);
  }

  lemma ShelvedIsApart<D>(cells: seq<Data<D>>, heads: seq<Data<D>>, lists: seq<seq<nat>>)
    requires Shelved(cells, heads, lists)
    ensures Apart(lists) && |heads| == |lists|
    ensures forall i, j, k :: 0 <= i < |lists| && 0 <= j < k < |lists[i]| ==> lists[i][j] != lists[i][k]
  {
    forall i | 0 <= i < |lists| ensures forall j, k :: 0 <= j < k < |lists[i]| ==> lists[i][j] != lists[i][k] {
      ThreadedIsDistinct(cells, lists[i], heads[i]);
    }
  }

  /** Where a link in a list leads. */
  lemma ShelfNext<D>(cells: seq<Data<D>>, heads: seq<Data<D>>, lists: seq<seq<nat>>, i: nat, k: nat)
    requires Shelved(cells, heads, lists) && i < |lists| && k < |lists[i]|
    ensures lists[i][k] < |cells|
    ensures cells[lists[i][k]] == if k + 1 < |lists[i]| then Next(lists[i][k + 1]) else Null
  {
    assert Threaded(cells, lists[i], heads[i]);
  }

  lemma ShelfPop<D>(cells: seq<Data<D>>, heads: seq<Data<D>>, lists: seq<seq<nat>>, i: nat)
    requires Shelved(cells, heads, lists) && i < |lists| && lists[i] != []
    ensures var x := lists[i][0];
            && x < |cells| && heads[i] == Next(x)
            && Shelved(cells, heads[i := cells[x]], lists[i := lists[i][1..]])
            && OnNone(lists[i := lists[i][1..]], x)
  {
    var x, lists' := lists[i][0], lists[i := lists[i][1..]];
    hide Threaded;
    ThreadedPop(cells, lists[i], heads[i]);
    ApartLess(lists, i, lists[i][1..]);
    assert forall j :: 0 <= j < |lists| && j != i ==> x !in lists[j];
  }

  lemma ApartLess(lists: seq<seq<nat>>, i: nat, less: seq<nat>)
    requires Apart(lists) && i < |lists| && forall x :: x in less ==> x in lists[i]
    ensures Apart(lists[i := less])
  {
  }

  lemma ShelfPush<D>(cells: seq<Data<D>>, heads: seq<Data<D>>, lists: seq<seq<nat>>, i: nat, x: nat)
    requires Shelved(cells, heads, lists) && i < |lists| && OnNone(lists, x) && x < |cells|
    ensures Shelved(cells[x := heads[i]], heads[i := Next(x)], lists[i := [x] + lists[i]])
  {
    var cells', heads', lists' := cells[x := heads[i]], heads[i := Next(x)], lists[i := [x] + lists[i]];
    hide Threaded;
    ThreadedPush(cells, cells', lists[i], heads[i], x);
    forall j | 0 <= j < |lists| && j != i ensures Threaded(cells', lists[j], heads[j]) {
      ThreadedKept(cells, cells', lists[j], heads[j]);
    }
    assert Apart(lists');
  }

  /** Cells of slots that are on no list may change, and the pool may grow. */
  lemma ShelfKept<D>(cells: seq<Data<D>>, cells': seq<Data<D>>, heads: seq<Data<D>>, lists: seq<seq<nat>>)
    requires Shelved(cells, heads, lists) && |cells| <= |cells'|
    requires forall x :: 0 <= x < |cells| && !OnNone(lists, x) ==> cells'[x] == cells[x]
    ensures Shelved(cells', heads, lists)
  {
    hide Threaded;
    forall i | 0 <= i < |lists| ensures Threaded(cells', lists[i], heads[i]) {
      ThreadedKept(cells, cells', lists[i], heads[i]);
    }
  }

  /** One more list, empty. */
  lemma ShelfAdd<D>(cells: seq<Data<D>>, heads: seq<Data<D>>, lists: seq<seq<nat>>)
    requires Shelved(cells, heads, lists)
    ensures Shelved(cells, heads + [Null], lists + [[]])
  {
    hide Threaded;
    ThreadedNone(cells);
    var heads', lists' := heads + [Null], lists + [[]];
    forall i | 0 <= i < |lists'| ensures Threaded(cells, lists'[i], heads'[i]) {
      assert i < |lists| ==> lists'[i] == lists[i] && heads'[i] == heads[i];
    }
  }

  /** A slot in the middle of a list is bridged by the one before it. */
  lemma ShelfUnlink<D>(cells: seq<Data<D>>, heads: seq<Data<D>>, lists: seq<seq<nat>>, i: nat, k: nat)
    requires Shelved(cells, heads, lists) && i < |lists| && 0 < k < |lists[i]|
    ensures lists[i][k - 1] < |cells| && lists[i][k] < |cells|
    ensures var prev, x, less := lists[i][k - 1], lists[i][k], lists[i][..k] + lists[i][k + 1..];
            && Shelved(cells[prev := cells[x]], heads, lists[i := less])
            && OnNone(lists[i := less], x)
  {
    var prev, x, less := lists[i][k - 1], lists[i][k], lists[i][..k] + lists[i][k + 1..];
    assert Threaded(cells, lists[i], heads[i]);
    ThreadedUnlink(cells, lists[i], heads[i], k);
    hide Threaded;
    var cells' := cells[prev := cells[x]];
    ApartLess(lists, i, less);
    forall j | 0 <= j < |lists| && j != i ensures Threaded(cells', lists[j], heads[j]) {
      ThreadedKept(cells, cells', lists[j], heads[j]);
    }
  }

  lemma ThreadedUnlink<D>(cells: seq<Data<D>>, free: seq<nat>, head: Data<D>, k: nat)
    requires Threaded(cells, free, head) && 0 < k < |free|
    ensures free[k - 1] < |cells| && free[k] < |cells|
    ensures var less := free[..k] + free[k + 1..];
            && Threaded(cells[free[k - 1] := cells[free[k]]], less, head)
            && free[k] !in less && forall x :: x in less ==> x in free
  {
    hide Link;
    var less := free[..k] + free[k + 1..];
    var cells' := cells[free[k - 1] := cells[free[k]]];
    WithoutOne(free, k);
    LinkWithout<D>(free, k, 0);
    forall m | 0 <= m < |less| ensures less[m] < |cells| && cells'[less[m]] == Link(less, m + 1) {
      LinkWithout<D>(free, k, m + 1);
      var at := if m < k then m else m + 1;
      assert cells[free[at]] == Link(free, at + 1) && cells[free[k]] == Link(free, k + 1);
    }
  }

  lemma WithoutOne(free: seq<nat>, k: nat)
    requires k < |free| && forall i, j :: 0 <= i < j < |free| ==> free[i] != free[j]
    ensures var less := free[..k] + free[k + 1..];
            && (forall m :: 0 <= m < |less| ==> less[m] == free[if m < k then m else m + 1])
            && (forall i, j :: 0 <= i < j < |less| ==> less[i] != less[j])
            && free[k] !in less && (forall x :: x in less ==> x in free)
  {
  }

  lemma LinkWithout<D>(free: seq<nat>, k: nat, m: nat)
    requires 0 < k < |free| && m < |free|
    ensures Link<D>(free[..k] + free[k + 1..], m) == Link<D>(free, if m < k then m else m + 1)
  {
  }

  /** A new slot goes to the front of a list. */
  lemma ShelfGrow<D>(cells: seq<Data<D>>, heads: seq<Data<D>>, lists: seq<seq<nat>>, i: nat)
    requires Shelved(cells, heads, lists) && i < |lists|
    ensures Shelved(cells + [heads[i]], heads[i := Next(|cells|)], lists[i := [|cells|] + lists[i]])
  {
    hide Threaded;
    var n, more := |cells|, cells + [Null];
    forall j | 0 <= j < |lists| ensures n !in lists[j] {
      ThreadedHead(cells, lists[j], heads[j]);
    }
    ShelfKept(cells, more, heads, lists);
    ShelfPush(more, heads, lists, i, n);
    assert more[n := heads[i]] == cells + [heads[i]];
  }

  /** The first slot of one list goes to the front of another. */
  lemma ShelfMove<D>(cells: seq<Data<D>>, heads: seq<Data<D>>, lists: seq<seq<nat>>, i: nat, j: nat)
    requires Shelved(cells, heads, lists) && i < |lists| && j < |lists| && i != j && lists[i] != []
    ensures var x := lists[i][0];
            && x < |cells| && heads[i] == Next(x)
            && Shelved(cells[x := heads[j]], heads[i := cells[x]][j := Next(x)],
                       lists[i := lists[i][1..]][j := [x] + lists[j]])
  {
    ShelfPop(cells, heads, lists, i);
    hide Shelved, OnNone;
    ShelfPush(cells, heads[i := cells[lists[i][0]]], lists[i := lists[i][1..]], j, lists[i][0]);
  }

  // ----- counting

  ghost function TotalLength(lists: seq<seq<nat>>): nat {
    if lists == [] then 0 else |lists[0]| + TotalLength(lists[1..])
  }

  /** If the slots on no list are those in hand, the lists are as long as the pool is large, but for these. */
  lemma ShelvesCountBut<D>(cells: seq<Data<D>>, heads: seq<Data<D>>, lists: seq<seq<nat>>, held: seq<nat>)
    requires Shelved(cells, heads, lists) && Once(held) && forall x :: x in held ==> x < |cells|
    requires forall x :: 0 <= x < |cells| ==> (OnNone(lists, x) <==> x in held)
    ensures TotalLength(lists) + |held| == |cells|
  {
    forall i | 0 <= i < |lists| ensures Once(lists[i]) && forall x :: x in lists[i] ==> x < |cells| {
      ThreadedIsDistinct(cells, lists[i], heads[i]);
      ThreadedHead(cells, lists[i], heads[i]);
    }
    ElementsCount(lists);
    SizeOfSet(held);
    SetOfIs(held);
    var all, hand := All(lists), SetOf(held);
    forall x ensures x in all + hand <==> x in Below(|cells|) {
      AllIs(lists, x);
    }
    forall x | x in all ensures x !in hand {
      AllIs(lists, x);
    }
    assert all + hand == Below(|cells|);
    hide SetOf, All, OnNone, Shelved;
  }

  ghost predicate Once(s: seq<nat>) {
    forall i, j :: 0 <= i < j < |s| ==> s[i] != s[j]
  }

  ghost function SetOf(s: seq<nat>): set<nat> {
    if s == [] then {} else {s[0]} + SetOf(s[1..])
  }

  lemma {:induction false} SetOfIs(s: seq<nat>)
    ensures forall x :: x in SetOf(s) <==> x in s
    decreases s
  {
    if s != [] {
      SetOfIs(s[1..]);
      assert s == [s[0]] + s[1..];
    }
  }

  lemma {:induction false} SizeOfSet(s: seq<nat>)
    requires Once(s)
    ensures |SetOf(s)| == |s|
    decreases s
  {
    if s != [] {
      SizeOfSet(s[1..]);
      SetOfIs(s[1..]);
    }
  }

  ghost function All(lists: seq<seq<nat>>): set<nat> {
    if lists == [] then {} else SetOf(lists[0]) + All(lists[1..])
  }

  lemma {:induction false} AllIs(lists: seq<seq<nat>>, x: nat)
    ensures x in All(lists) <==> !OnNone(lists, x)
    decreases lists
  {
    if lists != [] {
      SetOfIs(lists[0]);
      AllIs(lists[1..], x);
      assert forall i :: 0 < i < |lists| ==> lists[i] == lists[1..][i - 1];
      if i :| 0 <= i < |lists[1..]| && x in lists[1..][i] {
        assert x in lists[i + 1];
      }
    }
  }

  lemma {:induction false} ElementsCount(lists: seq<seq<nat>>)
    requires Apart(lists) && forall i :: 0 <= i < |lists| ==> Once(lists[i])
    ensures TotalLength(lists) == |All(lists)|
    decreases lists
  {
    if lists != [] {
      ApartRest(lists);
      ElementsCount(lists[1..]);
      SizeOfSet(lists[0]);
      FirstIsApart(lists);
      hide SetOf, Apart, Once;
    }
  }

  lemma FirstIsApart(lists: seq<seq<nat>>)
    requires Apart(lists) && lists != []
    ensures SetOf(lists[0]) !! All(lists[1..])
  {
    SetOfIs(lists[0]);
    forall x | x in All(lists[1..]) ensures x !in lists[0] {
      AllIs(lists[1..], x);
      var i :| 0 <= i < |lists[1..]| && x in lists[1..][i];
      assert x in lists[i + 1];
    }
  }

  lemma ApartRest(lists: seq<seq<nat>>)
    requires Apart(lists) && lists != [] && forall i :: 0 <= i < |lists| ==> Once(lists[i])
    ensures Apart(lists[1..]) && forall i :: 0 <= i < |lists[1..]| ==> Once(lists[1..][i])
  {
    var rest := lists[1..];
    forall i, j, x | 0 <= i < |rest| && 0 <= j < |rest| && x in rest[i] && x in rest[j] ensures i == j {
      assert x in lists[i + 1] && x in lists[j + 1];
    }
  }
}
