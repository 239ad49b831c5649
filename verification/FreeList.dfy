/**
 Free lists threaded through a field of the free slots themselves, and the accounting that goes with them: every
 slot of a pool is in exactly one place, so the counters add up. The pools of this project share them.
 */
module FreeList {

  /** A field that links free slots, and may hold something else in a slot that is in use. */
  datatype Data<+D> = Null | Next(slot: nat) | User(data: D)

  /** The linking fields of a pool. */
  ghost function Cells<S, D>(pool: seq<S>, link: S -> Data<D>): (cells: seq<Data<D>>)
    ensures |cells| == |pool| && forall i :: 0 <= i < |pool| ==> cells[i] == link(pool[i])
  {
    seq(|pool|, i requires 0 <= i < |pool| => link(pool[i]))
  }

  ghost function Link<D>(free: seq<nat>, k: nat): Data<D>
    requires k <= |free|
  {
    if k < |free| then Next(free[k]) else Null
  }

  /** `free` is the list that starts at `head`; no slot is on it twice. */
  ghost predicate Threaded<D>(cells: seq<Data<D>>, free: seq<nat>, head: Data<D>) {
    && head == Link(free, 0)
    && (forall k :: 0 <= k < |free| ==> free[k] < |cells|)
    && (forall k :: 0 <= k < |free| ==> cells[free[k]] == Link(free, k + 1))
    && (forall i, j :: 0 <= i < j < |free| ==> free[i] != free[j])
  }

  /** Every slot is in exactly one place. */
  ghost predicate Partition(n: nat, free: seq<nat>, live: set<nat>, taken: set<nat>) {
    && (forall i :: i in live || i in taken ==> i < n)
    && (forall i :: 0 <= i < n ==> i in free || i in live || i in taken)
    && (forall i :: i in free ==> i < n && i !in live && i !in taken)
    && live !! taken
  }

  lemma {:induction false} Counts(n: nat, free: seq<nat>, live: set<nat>, taken: set<nat>)
    requires Partition(n, free, live, taken)
    requires forall i, j :: 0 <= i < j < |free| ==> free[i] != free[j]
    ensures |free| + |live| + |taken| == n
  {
    var f := Elements(free);
    assert Below(n) == f + live + taken;
    assert |f + live + taken| == |f + live| + |taken| && |f + live| == |f| + |live|;
  }

  ghost function Elements(s: seq<nat>): (e: set<nat>)
    requires forall i, j :: 0 <= i < j < |s| ==> s[i] != s[j]
    ensures |e| == |s| && forall x :: x in e <==> x in s
  {
    if s == [] then {} else
      HeadOnce(s);
      var e := Elements(s[1..]);
      e + {s[0]}
  }

  lemma HeadOnce(s: seq<nat>)
    requires s != [] && forall i, j :: 0 <= i < j < |s| ==> s[i] != s[j]
    ensures s[0] !in s[1..] && forall x :: x in s <==> x == s[0] || x in s[1..]
    ensures forall i, j :: 0 <= i < j < |s[1..]| ==> s[1..][i] != s[1..][j]
  {
    assert s == [s[0]] + s[1..];
  }

  ghost function Below(n: nat): (b: set<nat>)
    ensures |b| == n && forall i :: i in b <==> 0 <= i < n
  {
    if n == 0 then {} else Below(n - 1) + {n - 1}
  }

  /** A map that tells its slots apart has as many keys. */
  lemma {:induction false} AsMany<K>(m: map<K, nat>, slots: set<nat>)
    requires forall k :: k in m ==> m[k] in slots
    requires forall i :: i in slots ==> exists k :: k in m && m[k] == i
    requires forall k, l :: k in m && l in m && m[k] == m[l] ==> k == l
    ensures |m.Keys| == |slots|
    decreases |m.Keys|
  {
    if m.Keys == {} {
      assert slots == {};
    } else {
      var k :| k in m;
      var rest := m - {k};
      assert rest.Keys == m.Keys - {k};
      forall i | i in slots - {m[k]} ensures exists l :: l in rest && rest[l] == i {
        var l :| l in m && m[l] == i;
        assert l in rest;
      }
      AsMany(rest, slots - {m[k]});
    }
  }

  /** A set of slots that lacks one is smaller than the pool. */
  lemma FewerThan(n: nat, s: set<nat>, c: nat)
    requires (forall i :: i in s ==> i < n) && c < n && c !in s
    ensures |s| < n
  {
    SubsetIsSmaller(s + {c}, Below(n));
  }

  lemma {:induction false} SubsetIsSmaller(s: set<nat>, t: set<nat>)
    requires s <= t
    ensures |s| <= |t|
    decreases |s|
  {
    if s != {} {
      var x :| x in s;
      SubsetIsSmaller(s - {x}, t - {x});
    }
  }

  lemma ThreadedPop<D>(cells: seq<Data<D>>, free: seq<nat>, head: Data<D>)
    requires Threaded(cells, free, head) && free != []
    ensures head == Next(free[0]) && free[0] < |cells| && Threaded(cells, free[1..], cells[free[0]])
    ensures forall i :: i in free <==> i == free[0] || i in free[1..]
    ensures free[0] !in free[1..]
  {
    var rest := free[1..];
    assert cells[free[0]] == Link(free, 1);
    PopElements(free);
    forall k | 0 <= k < |rest| ensures rest[k] < |cells| && cells[rest[k]] == Link(rest, k + 1) {
      LinkOfRest<D>(free, k + 1);
      assert cells[free[k + 1]] == Link(free, k + 2);
    }
    LinkOfRest<D>(free, 0);
    assert head == Link(free, 0);
    hide Link;
  }

  lemma LinkOfRest<D>(free: seq<nat>, k: nat)
    requires k < |free|
    ensures Link<D>(free[1..], k) == Link<D>(free, k + 1)
  {
  }

  lemma PopElements(s: seq<nat>)
    requires s != [] && forall i, j :: 0 <= i < j < |s| ==> s[i] != s[j]
    ensures forall x :: x in s <==> x == s[0] || x in s[1..]
    ensures s[0] !in s[1..]
    ensures forall i, j :: 0 <= i < j < |s[1..]| ==> s[1..][i] != s[1..][j]
  {
    assert s == [s[0]] + s[1..];
  }

  lemma ThreadedPush<D>(cells: seq<Data<D>>, cells': seq<Data<D>>, free: seq<nat>, head: Data<D>, id: nat)
    requires Threaded(cells, free, head) && id < |cells| == |cells'| && id !in free
    requires cells'[id] == head && forall i :: 0 <= i < |cells| && i != id ==> cells'[i] == cells[i]
    ensures Threaded(cells', [id] + free, Next(id))
  {
    var free' := [id] + free;
    assert forall k :: 0 <= k <= |free| ==> Link<D>(free', k + 1) == Link<D>(free, k);
  }

  lemma ThreadedHead<D>(cells: seq<Data<D>>, free: seq<nat>, head: Data<D>)
    requires Threaded(cells, free, head)
    ensures head == if free == [] then Null else Next(free[0])
    ensures forall k :: 0 <= k < |free| ==> free[k] < |cells|
  {
  }

  lemma ThreadedIsDistinct<D>(cells: seq<Data<D>>, free: seq<nat>, head: Data<D>)
    requires Threaded(cells, free, head)
    ensures forall i, j :: 0 <= i < j < |free| ==> free[i] != free[j]
  {
  }

  lemma ThreadedNone<D>(cells: seq<Data<D>>)
    ensures Threaded(cells, [], Null)
  {
  }

  /** Cells of slots that are not on the list may change, and the pool may grow. */
  lemma ThreadedKept<D>(cells: seq<Data<D>>, cells': seq<Data<D>>, free: seq<nat>, head: Data<D>)
    requires Threaded(cells, free, head) && |cells| <= |cells'|
    requires forall i :: 0 <= i < |cells| && i in free ==> cells'[i] == cells[i]
    ensures Threaded(cells', free, head)
  {
  }
}
