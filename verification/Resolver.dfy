/**
 The dynamic resolver's tables: records of domains chained in hash buckets, contexts of waiting callbacks chained
 at their records, and a free list for each kind. Where the code calls a callback out of a loop, a method ends and
 another begins, with the loop's variables on a stack: between the two a callback may call any other method.
 */
module Resolver {
  import opened Bytes
  import opened FreeList
  import opened Shelves
  import opened MapKeys
  import opened ResolverSpec

  datatype Dom<+A> = Dom(name: Str, naddrs: nat, addrs: seq<Option<A>>, ctx: Data<()>, next: Data<()>)

  datatype Ctx<+F> = Ctx(callback: Option<F>, next: Data<()>)

  /** The variables of a draining loop that waits for a callback, or is about to go on. */
  datatype Locals<+A> = Locals(record: nat, why: Why<A>, busy: bool)

  ghost function LocalsOf<A>(stack: seq<Frame<A>>): (s: seq<Locals<A>>)
    ensures |s| == |stack|
    ensures forall i :: 0 <= i < |stack| ==> s[i] == Locals(stack[i].record, stack[i].why, stack[i].busy)
  {
    seq(|stack|, i requires 0 <= i < |stack| => Locals(stack[i].record, stack[i].why, stack[i].busy))
  }

  ghost function Chained<A>(ds: seq<Dom<A>>): (cells: seq<Data<()>>)
    ensures |cells| == |ds| && forall i :: 0 <= i < |ds| ==> cells[i] == ds[i].next
  {
    Cells(ds, (d: Dom<A>) => d.next)
  }

  ghost function WaitHeads<A>(ds: seq<Dom<A>>): (cells: seq<Data<()>>)
    ensures |cells| == |ds| && forall i :: 0 <= i < |ds| ==> cells[i] == ds[i].ctx
  {
    Cells(ds, (d: Dom<A>) => d.ctx)
  }

  ghost function CtxCells<F>(cs: seq<Ctx<F>>): (cells: seq<Data<()>>)
    ensures |cells| == |cs| && forall i :: 0 <= i < |cs| ==> cells[i] == cs[i].next
  {
    Cells(cs, (c: Ctx<F>) => c.next)
  }

  function Bucket(buckets: nat, key: Str): (b: nat)
    requires buckets > 0
    ensures b < buckets
  {
    HashStr(key) % buckets
  }

  /** The record holds the domain that the table has it for. */
  ghost predicate Tenant<A>(ds: seq<Dom<A>>, index: map<Str, nat>, d: nat) {
    d < |ds| && ds[d].name in index && index[ds[d].name] == d
  }

  /** The table's names are those of the chained records, each in the chain of its bucket. */
  ghost predicate Indexed<A>(ds: seq<Dom<A>>, index: map<Str, nat>, chains: seq<seq<nat>>) {
    && (forall n :: n in index ==>
          |chains| > 0 && index[n] < |ds| && ds[index[n]].name == n && index[n] in chains[Bucket(|chains|, n)])
    && (forall b, d :: 0 <= b < |chains| && d in chains[b] ==> Tenant(ds, index, d))
  }

  ghost predicate WaitersAre<F>(cs: seq<Ctx<F>>, list: seq<nat>, waiting: seq<Wait<F>>) {
    && |list| == |waiting|
    && forall k :: 0 <= k < |list| ==> list[k] < |cs| && cs[list[k]].callback == Some(waiting[k].callback)
  }

  lemma Offset<T>(a: T, s: seq<T>, b: nat, x: T)
    requires b < |s|
    ensures ([a] + s)[1 + b := x] == [a] + s[b := x] && ([a] + s)[1 + b] == s[b]
    ensures ([a] + s)[0 := x] == [x] + s && ([a] + s)[0] == a
  {
  }

  /** A new tenant: the others keep their records. */
  lemma IndexedOpened<A>(ds: seq<Dom<A>>, ds': seq<Dom<A>>, index: map<Str, nat>,
                         chains: seq<seq<nat>>, key: Str, d: nat)
    requires Indexed(ds, index, chains) && key !in index && |chains| > 0
    requires d < |ds'| && |ds| <= |ds'| <= |ds| + 1 && ds'[d].name == key && (d < |ds| || |ds'| == |ds| + 1 == d + 1)
    requires forall i :: 0 <= i < |ds| && i != d ==> ds'[i].name == ds[i].name
    requires forall n :: n in index ==> index[n] != d
    requires |ds'| > |ds| ==> d == |ds|
    ensures var b := Bucket(|chains|, key); Indexed(ds', index[key := d], chains[b := [d] + chains[b]])
  {
    hide Bucket;
    var b := Bucket(|chains|, key);
    var index', chains' := index[key := d], chains[b := [d] + chains[b]];
    forall i | i != d && Tenant(ds, index, i) ensures Tenant(ds', index', i) {
    }
    assert Tenant(ds', index', d);
    forall c, i | 0 <= c < |chains'| && i in chains'[c] ensures Tenant(ds', index', i) {
      assert i == d || i in chains[c];
    }
    forall n | n in index'
      ensures index'[n] < |ds'| && ds'[index'[n]].name == n && index'[n] in chains'[Bucket(|chains|, n)]
    {
    }
  }

  ghost predicate Table<A>(ds: seq<Dom<A>>, hash: seq<Data<()>>, freeDomain: Data<()>, index: map<Str, nat>,
                           free: seq<nat>, chains: seq<seq<nat>>) {
    && |hash| == |chains|
    && Shelved(Chained(ds), [freeDomain] + hash, [free] + chains)
    && Indexed(ds, index, chains)
  }

  /** Each record's waiting list; the contexts on no list are those of running callbacks. */
  ghost predicate Contexts<A, F>(ds: seq<Dom<A>>, cs: seq<Ctx<F>>, freeCtx: Data<()>, records: seq<Record<A, F>>,
                                 spare: seq<nat>, waits: seq<seq<nat>>, held: seq<nat>) {
    && |records| == |ds| == |waits|
    && (forall d :: 0 <= d < |ds| ==>
          && records[d].naddrs == ds[d].naddrs && records[d].addrs == ds[d].addrs
          && WaitersAre(cs, waits[d], records[d].waiting))
    && Shelved(CtxCells(cs), [freeCtx] + WaitHeads(ds), [spare] + waits)
    && Held(|cs|, [spare] + waits, held)
  }

  ghost predicate Held(n: nat, lists: seq<seq<nat>>, held: seq<nat>) {
    && Once(held)
    && (forall x :: x in held ==> x < n)
    && (forall x :: 0 <= x < n ==> (OnNone(lists, x) <==> x in held))
  }

  // ----- reading the table

  lemma ChainHead<A>(ds: seq<Dom<A>>, hash: seq<Data<()>>, freeDomain: Data<()>, index: map<Str, nat>, free: seq<nat>,
                     chains: seq<seq<nat>>, b: nat)
    requires Table(ds, hash, freeDomain, index, free, chains) && b < |chains|
    ensures hash[b] == if chains[b] == [] then Null else Next(chains[b][0])
    ensures freeDomain == if free == [] then Null else Next(free[0])
  {
    ShelfHead(Chained(ds), [freeDomain] + hash, [free] + chains, 1 + b);
    ShelfHead(Chained(ds), [freeDomain] + hash, [free] + chains, 0);
    Offset(freeDomain, hash, b, Null);
    Offset(free, chains, b, []);
  }

  lemma ChainAt<A>(ds: seq<Dom<A>>, hash: seq<Data<()>>, freeDomain: Data<()>, index: map<Str, nat>, free: seq<nat>,
                   chains: seq<seq<nat>>, b: nat, k: nat)
    requires Table(ds, hash, freeDomain, index, free, chains) && b < |chains| && k < |chains[b]|
    ensures Tenant(ds, index, chains[b][k]) && chains[b][k] < |ds|
    ensures ds[chains[b][k]].next == if k + 1 < |chains[b]| then Next(chains[b][k + 1]) else Null
  {
    ShelfNext(Chained(ds), [freeDomain] + hash, [free] + chains, 1 + b, k);
    Offset(free, chains, b, []);
    assert chains[b][k] in chains[b];
  }

  lemma ChainHas<A>(ds: seq<Dom<A>>, hash: seq<Data<()>>, freeDomain: Data<()>, index: map<Str, nat>, free: seq<nat>,
                    chains: seq<seq<nat>>, key: Str)
    requires Table(ds, hash, freeDomain, index, free, chains) && key in index
    ensures |chains| > 0 && index[key] < |ds| && ds[index[key]].name == key
    ensures index[key] in chains[Bucket(|chains|, key)]
  {
  }

  /**
   The walk of start_resolver does not advance to the second record of a bucket: it is lost if the first one is
   another domain's.
   */
  ghost predicate Lost<A>(ds: seq<Dom<A>>, chains: seq<seq<nat>>, key: Str) {
    && |chains| > 0
    && var chain := chains[Bucket(|chains|, key)];
       chain != [] && chain[0] < |ds| && ds[chain[0]].name != key
  }

  /** A new name is lost exactly if a domain of the table has its bucket. */
  lemma NewIsLostIff<A>(ds: seq<Dom<A>>, hash: seq<Data<()>>, freeDomain: Data<()>, index: map<Str, nat>,
                        free: seq<nat>, chains: seq<seq<nat>>, key: Str)
    requires Table(ds, hash, freeDomain, index, free, chains) && |chains| > 0 && key !in index
    ensures Lost(ds, chains, key) <==> exists n :: n in index && Bucket(|chains|, n) == Bucket(|chains|, key)
  {
    hide Bucket, Shelved;
    var chain := chains[Bucket(|chains|, key)];
    if chain != [] {
      assert Tenant(ds, index, chain[0]);
      var n := ds[chain[0]].name;
      assert chain[0] in chains[Bucket(|chains|, n)];
      ChainsApart(ds, hash, freeDomain, free, chains, Bucket(|chains|, n));
    }
  }

  /** Of two domains in one bucket one is lost, though both are in the table. */
  lemma OneOfTwoIsLost<A>(ds: seq<Dom<A>>, hash: seq<Data<()>>, freeDomain: Data<()>, index: map<Str, nat>,
                          free: seq<nat>, chains: seq<seq<nat>>, n: Str, m: Str)
    requires Table(ds, hash, freeDomain, index, free, chains) && |chains| > 0
    requires n in index && m in index && n != m && Bucket(|chains|, n) == Bucket(|chains|, m)
    ensures Lost(ds, chains, n) || Lost(ds, chains, m)
  {
    hide Bucket, Shelved;
    var chain := chains[Bucket(|chains|, n)];
    assert Tenant(ds, index, chain[0]);
  }

  // ----- a new tenant

  lemma TableNew<A>(ds: seq<Dom<A>>, hash: seq<Data<()>>, freeDomain: Data<()>, index: map<Str, nat>, free: seq<nat>,
                    chains: seq<seq<nat>>, key: Str)
    requires Table(ds, hash, freeDomain, index, free, chains) && |chains| > 0 && key !in index
    ensures var d, b := |ds|, Bucket(|chains|, key);
            Table(ds + [Dom(key, 0, NoAddrs(), Null, hash[b])], hash[b := Next(d)], freeDomain, index[key := d], free,
                  chains[b := [d] + chains[b]])
  {
    hide HashStr, Shelved;
    var d, b := |ds|, Bucket(|chains|, key);
    var ds' := ds + [Dom(key, 0, NoAddrs(), Null, hash[b])];
    ShelfGrow(Chained(ds), [freeDomain] + hash, [free] + chains, 1 + b);
    Offset(freeDomain, hash, b, Next(d));
    Offset(free, chains, b, [d] + chains[b]);
    assert Chained(ds') == Chained(ds) + [hash[b]];
    IndexedOpened(ds, ds', index, chains, key, d);
    hide Indexed;
  }

  lemma ContextsNew<A, F>(ds: seq<Dom<A>>, cs: seq<Ctx<F>>, freeCtx: Data<()>, records: seq<Record<A, F>>,
                          spare: seq<nat>, waits: seq<seq<nat>>, held: seq<nat>, dom: Dom<A>, rec: Record<A, F>)
    requires Contexts(ds, cs, freeCtx, records, spare, waits, held) && dom.ctx == Null
    requires rec.naddrs == dom.naddrs && rec.addrs == dom.addrs && rec.waiting == []
    ensures Contexts(ds + [dom], cs, freeCtx, records + [rec], spare, waits + [[]], held)
  {
    hide Shelved, OnNone;
    var ds' := ds + [dom];
    ShelfAdd(CtxCells(cs), [freeCtx] + WaitHeads(ds), [spare] + waits);
    assert [freeCtx] + WaitHeads(ds') == [freeCtx] + WaitHeads(ds) + [Null];
    assert [spare] + (waits + [[]]) == [spare] + waits + [[]];
    forall x ensures OnNone([spare] + (waits + [[]]), x) <==> OnNone([spare] + waits, x) {
      OnMore([spare] + waits, x);
    }
  }

  lemma OnMore(lists: seq<seq<nat>>, x: nat)
    ensures OnNone(lists + [[]], x) <==> OnNone(lists, x)
  {
    var more := lists + [[]];
    assert forall i :: 0 <= i < |lists| ==> more[i] == lists[i];
  }

  lemma TableReused<A>(ds: seq<Dom<A>>, hash: seq<Data<()>>, freeDomain: Data<()>, index: map<Str, nat>, free: seq<nat>,
                       chains: seq<seq<nat>>, key: Str)
    requires Table(ds, hash, freeDomain, index, free, chains) && |chains| > 0 && key !in index
    requires free != [] && free[0] in free && forall n :: n in index ==> index[n] !in free
    ensures var d, b := free[0], Bucket(|chains|, key);
            && freeDomain == Next(d) && d < |ds|
            && Table(ds[d := Dom(key, 0, NoAddrs(), Null, hash[b])], hash[b := Next(d)], ds[d].next, index[key := d],
                     free[1..], chains[b := [d] + chains[b]])
  {
    hide HashStr, Shelved;
    var d, b := free[0], Bucket(|chains|, key);
    ShelfMove(Chained(ds), [freeDomain] + hash, [free] + chains, 0, 1 + b);
    var ds' := ds[d := Dom(key, 0, NoAddrs(), Null, hash[b])];
    Offset(freeDomain, hash, b, Next(d));
    Offset(free, chains, b, [d] + chains[b]);
    Offset(freeDomain, hash, b, hash[b]);
    assert ([freeDomain] + hash)[0 := ds[d].next] == [ds[d].next] + hash;
    assert ([free] + chains)[0 := free[1..]] == [free[1..]] + chains;
    Offset(ds[d].next, hash, b, Next(d));
    Offset(free[1..], chains, b, [d] + chains[b]);
    assert Chained(ds') == Chained(ds)[d := hash[b]];
    IndexedOpened(ds, ds', index, chains, key, d);
    hide Indexed;
  }

  /** A record that nobody waits at may be cleared. */
  lemma ContextsCleared<A, F>(ds: seq<Dom<A>>, cs: seq<Ctx<F>>, freeCtx: Data<()>, records: seq<Record<A, F>>,
                              spare: seq<nat>, waits: seq<seq<nat>>, held: seq<nat>, d: nat, dom: Dom<A>,
                              rec: Record<A, F>)
    requires Contexts(ds, cs, freeCtx, records, spare, waits, held) && dom.ctx == Null
    requires rec.naddrs == dom.naddrs && rec.addrs == dom.addrs && rec.waiting == []
    requires d < |ds| && records[d].waiting == []
    ensures Contexts(ds[d := dom], cs, freeCtx, records[d := rec], spare, waits, held)
  {
    ContextsHead(ds, cs, freeCtx, records, spare, waits, held, d);
    assert WaitHeads(ds[d := dom]) == WaitHeads(ds);
    hide Shelved, OnNone;
  }

  // ----- contexts come and go

  lemma ContextsHead<A, F>(ds: seq<Dom<A>>, cs: seq<Ctx<F>>, freeCtx: Data<()>, records: seq<Record<A, F>>,
                           spare: seq<nat>, waits: seq<seq<nat>>, held: seq<nat>, d: nat)
    requires Contexts(ds, cs, freeCtx, records, spare, waits, held) && d < |ds|
    ensures |waits| == |ds| == |records| && records[d].naddrs == ds[d].naddrs && records[d].addrs == ds[d].addrs
    ensures ds[d].ctx == if waits[d] == [] then Null else Next(waits[d][0])
    ensures freeCtx == if spare == [] then Null else Next(spare[0])
    ensures waits[d] == [] <==> records[d].waiting == []
    ensures waits[d] != [] ==> waits[d][0] < |cs| && cs[waits[d][0]].callback == Some(records[d].waiting[0].callback)
  {
    ShelfHead(CtxCells(cs), [freeCtx] + WaitHeads(ds), [spare] + waits, 1 + d);
    ShelfHead(CtxCells(cs), [freeCtx] + WaitHeads(ds), [spare] + waits, 0);
    Offset(freeCtx, WaitHeads(ds), d, Null);
    Offset(spare, waits, d, []);
    assert WaitersAre(cs, waits[d], records[d].waiting);
    hide Shelved, OnNone;
  }

  /** The context of the last who came leaves the record, into the hand of the loop. */
  lemma ContextsTaken<A, F>(ds: seq<Dom<A>>, cs: seq<Ctx<F>>, freeCtx: Data<()>, records: seq<Record<A, F>>,
                            spare: seq<nat>, waits: seq<seq<nat>>, held: seq<nat>, d: nat)
    requires Contexts(ds, cs, freeCtx, records, spare, waits, held) && d < |ds| && records[d].waiting != []
    ensures waits != [] && d < |waits| && waits[d] != []
    ensures var x := waits[d][0];
            && x < |cs| && ds[d].ctx == Next(x)
            && Contexts(ds[d := ds[d].(ctx := cs[x].next)], cs, freeCtx,
                        records[d := records[d].(waiting := records[d].waiting[1..])],
                        spare, waits[d := waits[d][1..]], held + [x])
  {
    hide Shelved, OnNone, WaitersAre;
    ContextsHead(ds, cs, freeCtx, records, spare, waits, held, d);
    var x := waits[d][0];
    var heads, lists := [freeCtx] + WaitHeads(ds), [spare] + waits;
    var ds' := ds[d := ds[d].(ctx := cs[x].next)];
    Offset(spare, waits, d, waits[d][1..]);
    Offset(freeCtx, WaitHeads(ds), d, cs[x].next);
    ShelfPop(CtxCells(cs), heads, lists, 1 + d);
    assert WaitHeads(ds') == WaitHeads(ds)[d := cs[x].next];
    HeldMore(|cs|, lists, held, 1 + d);
    var records' := records[d := records[d].(waiting := records[d].waiting[1..])];
    forall e | 0 <= e < |ds| ensures WaitersAre(cs, waits[d := waits[d][1..]][e], records'[e].waiting) {
      WaitersKept(cs, cs, waits[e], records[e].waiting);
    }
  }

  lemma HeldMore(n: nat, lists: seq<seq<nat>>, held: seq<nat>, i: nat)
    requires Held(n, lists, held) && i < |lists| && lists[i] != [] && lists[i][0] < n
    requires OnNone(lists[i := lists[i][1..]], lists[i][0])
    ensures Held(n, lists[i := lists[i][1..]], held + [lists[i][0]])
  {
    var x, lists' := lists[i][0], lists[i := lists[i][1..]];
    assert x in lists[i];
    assert !OnNone(lists, x);
    forall y | y != x ensures OnNone(lists', y) <==> OnNone(lists, y) {
      OnTail(lists, i, y);
    }
  }

  lemma OnTail(lists: seq<seq<nat>>, i: nat, y: nat)
    requires i < |lists| && lists[i] != [] && y != lists[i][0]
    ensures OnNone(lists[i := lists[i][1..]], y) <==> OnNone(lists, y)
  {
    var lists' := lists[i := lists[i][1..]];
    assert lists[i] == [lists[i][0]] + lists[i][1..];
    assert y in lists'[i] <==> y in lists[i];
    assert forall j :: 0 <= j < |lists| && j != i ==> lists'[j] == lists[j];
  }

  /** The context of a callback that returned is spare. */
  lemma ContextsPut<A, F>(ds: seq<Dom<A>>, cs: seq<Ctx<F>>, freeCtx: Data<()>, records: seq<Record<A, F>>,
                          spare: seq<nat>, waits: seq<seq<nat>>, held: seq<nat>)
    requires Contexts(ds, cs, freeCtx, records, spare, waits, held) && held != []
    ensures var x := held[|held| - 1];
            && x < |cs|
            && Contexts(ds, cs[x := cs[x].(next := freeCtx)], Next(x), records, [x] + spare, waits, held[..|held| - 1])
  {
    hide Shelved, OnNone, WaitersAre;
    var x := held[|held| - 1];
    assert x in held;
    var heads, lists, cs' := [freeCtx] + WaitHeads(ds), [spare] + waits, cs[x := cs[x].(next := freeCtx)];
    ShelfPush(CtxCells(cs), heads, lists, 0, x);
    assert CtxCells(cs') == CtxCells(cs)[x := freeCtx];
    assert heads[0 := Next(x)] == [Next(x)] + WaitHeads(ds);
    assert lists[0 := [x] + spare] == [[x] + spare] + waits;
    HeldLess(|cs|, lists, held, 0);
    forall e | 0 <= e < |ds| ensures WaitersAre(cs', waits[e], records[e].waiting) {
      WaitersKept(cs, cs', waits[e], records[e].waiting);
    }
  }

  lemma HeldLess(n: nat, lists: seq<seq<nat>>, held: seq<nat>, i: nat)
    requires Held(n, lists, held) && held != [] && i < |lists|
    ensures Held(n, lists[i := [held[|held| - 1]] + lists[i]], held[..|held| - 1])
  {
    var k := |held| - 1;
    var x, held' := held[k], held[..k];
    var lists' := lists[i := [x] + lists[i]];
    assert held == held' + [x];
    assert x !in held' && Once(held') && forall y :: y in held' ==> y in held;
    hide OnNone;
    forall y | 0 <= y < n ensures OnNone(lists', y) <==> y in held' {
      OnLonger(lists, i, x, y);
      assert OnNone(lists, y) <==> y in held;
    }
  }

  lemma OnLonger(lists: seq<seq<nat>>, i: nat, x: nat, y: nat)
    requires i < |lists|
    ensures OnNone(lists[i := [x] + lists[i]], y) <==> y != x && OnNone(lists, y)
  {
    var lists' := lists[i := [x] + lists[i]];
    assert lists'[i] == [x] + lists[i];
    assert x in lists'[i];
    assert forall j :: 0 <= j < |lists| && j != i ==> lists'[j] == lists[j];
  }

  /** Callbacks stay in their contexts. */
  lemma WaitersKept<F>(cs: seq<Ctx<F>>, cs': seq<Ctx<F>>, list: seq<nat>, waiting: seq<Wait<F>>)
    requires WaitersAre(cs, list, waiting) && |cs| <= |cs'|
    requires forall k :: 0 <= k < |list| && list[k] < |cs| ==> cs'[list[k]].callback == cs[list[k]].callback
    ensures WaitersAre(cs', list, waiting)
    ensures list != [] ==> waiting != [] && WaitersAre(cs', list[1..], waiting[1..])
  {
  }

  /** A spare context, cleared, is in hand. */
  lemma ContextsGot<A, F>(ds: seq<Dom<A>>, cs: seq<Ctx<F>>, freeCtx: Data<()>, records: seq<Record<A, F>>,
                          spare: seq<nat>, waits: seq<seq<nat>>, held: seq<nat>)
    requires Contexts(ds, cs, freeCtx, records, spare, waits, held) && spare != []
    ensures var x := spare[0];
            && x < |cs| && freeCtx == Next(x)
            && Contexts(ds, cs[x := Ctx(None, Null)], cs[x].next, records, spare[1..], waits, held + [x])
  {
    hide Shelved, OnNone, WaitersAre;
    var x := spare[0];
    var heads, lists := [freeCtx] + WaitHeads(ds), [spare] + waits;
    ShelfPop(CtxCells(cs), heads, lists, 0);
    var cs' := cs[x := Ctx(None, Null)];
    HeldMore(|cs|, lists, held, 0);
    var heads', lists' := heads[0 := cs[x].next], lists[0 := spare[1..]];
    assert heads' == [cs[x].next] + WaitHeads(ds) && lists' == [spare[1..]] + waits;
    assert CtxCells(cs') == CtxCells(cs)[x := Null];
    forall y | 0 <= y < |cs| && !OnNone(lists', y) ensures y != x {
    }
    ShelfKept(CtxCells(cs), CtxCells(cs'), heads', lists');
    NotWaiting(cs, spare[1..], waits, x);
    forall e | 0 <= e < |ds| ensures WaitersAre(cs', waits[e], records[e].waiting) {
      WaitersKept(cs, cs', waits[e], records[e].waiting);
    }
  }

  lemma NotWaiting<F>(cs: seq<Ctx<F>>, spare: seq<nat>, waits: seq<seq<nat>>, x: nat)
    requires OnNone([spare] + waits, x)
    ensures forall e :: 0 <= e < |waits| ==> x !in waits[e]
  {
    forall e | 0 <= e < |waits| ensures x !in waits[e] {
      assert ([spare] + waits)[1 + e] == waits[e];
    }
  }

  /** A new context is in hand. */
  lemma ContextsGotNew<A, F>(ds: seq<Dom<A>>, cs: seq<Ctx<F>>, freeCtx: Data<()>, records: seq<Record<A, F>>,
                             spare: seq<nat>, waits: seq<seq<nat>>, held: seq<nat>)
    requires Contexts(ds, cs, freeCtx, records, spare, waits, held)
    ensures Contexts(ds, cs + [Ctx(None, Null)], freeCtx, records, spare, waits, held + [|cs|])
  {
    hide Shelved, OnNone, WaitersAre;
    var x, cs' := |cs|, cs + [Ctx(None, Null)];
    var heads, lists := [freeCtx] + WaitHeads(ds), [spare] + waits;
    ShelfKept(CtxCells(cs), CtxCells(cs'), heads, lists);
    NewIsOnNone(CtxCells(cs), heads, lists);
    HeldNew(x, lists, held);
    forall e | 0 <= e < |ds| ensures WaitersAre(cs', waits[e], records[e].waiting) {
      WaitersKeptInRange(cs, cs', waits[e], records[e].waiting);
    }
  }

  lemma HeldNew(n: nat, lists: seq<seq<nat>>, held: seq<nat>)
    requires Held(n, lists, held) && OnNone(lists, n)
    ensures Held(n + 1, lists, held + [n])
  {
    hide OnNone;
    assert n !in held;
    assert forall x :: x in held + [n] <==> x in held || x == n;
  }

  lemma NewIsOnNone(cells: seq<Data<()>>, heads: seq<Data<()>>, lists: seq<seq<nat>>)
    requires Shelved(cells, heads, lists)
    ensures OnNone(lists, |cells|)
  {
    forall i | 0 <= i < |lists| ensures |cells| !in lists[i] {
      ShelfHead(cells, heads, lists, i);
    }
  }

  lemma WaitersKeptInRange<F>(cs: seq<Ctx<F>>, cs': seq<Ctx<F>>, list: seq<nat>, waiting: seq<Wait<F>>)
    requires WaitersAre(cs, list, waiting) && cs <= cs'
    ensures WaitersAre(cs', list, waiting)
  {
  }

  lemma WaitersMore<F>(cs: seq<Ctx<F>>, list: seq<nat>, waiting: seq<Wait<F>>, x: nat, w: Wait<F>)
    requires WaitersAre(cs, list, waiting) && x < |cs| && cs[x].callback == Some(w.callback)
    ensures WaitersAre(cs, [x] + list, [w] + waiting)
  {
  }

  /** The context in hand takes a callback to the record. */
  lemma ContextsWait<A, F>(ds: seq<Dom<A>>, cs: seq<Ctx<F>>, freeCtx: Data<()>, records: seq<Record<A, F>>,
                           spare: seq<nat>, waits: seq<seq<nat>>, held: seq<nat>, d: nat, w: Wait<F>)
    requires Contexts(ds, cs, freeCtx, records, spare, waits, held) && d < |ds| && held != []
    ensures var x := held[|held| - 1];
            && x < |cs| && |waits| == |ds| == |records|
            && Contexts(ds[d := ds[d].(ctx := Next(x))], cs[x := Ctx(Some(w.callback), ds[d].ctx)], freeCtx,
                        records[d := records[d].(waiting := [w] + records[d].waiting)],
                        spare, waits[d := [x] + waits[d]], held[..|held| - 1])
  {
    hide Shelved, OnNone, WaitersAre;
    var x := held[|held| - 1];
    assert x in held;
    var heads, lists := [freeCtx] + WaitHeads(ds), [spare] + waits;
    var ds', cs' := ds[d := ds[d].(ctx := Next(x))], cs[x := Ctx(Some(w.callback), ds[d].ctx)];
    Offset(spare, waits, d, [x] + waits[d]);
    Offset(freeCtx, WaitHeads(ds), d, Next(x));
    ShelfPush(CtxCells(cs), heads, lists, 1 + d, x);
    assert CtxCells(cs') == CtxCells(cs)[x := ds[d].ctx];
    assert WaitHeads(ds') == WaitHeads(ds)[d := Next(x)];
    HeldLess(|cs|, lists, held, 1 + d);
    NotWaiting(cs, spare, waits, x);
    var records' := records[d := records[d].(waiting := [w] + records[d].waiting)];
    forall e | 0 <= e < |ds| ensures WaitersAre(cs', waits[d := [x] + waits[d]][e], records'[e].waiting) {
      WaitersKept(cs, cs', waits[e], records[e].waiting);
      WaitersMore(cs', waits[e], records[e].waiting, x, w);
    }
  }

  // ----- a tenant leaves

  /** The record before it in its chain, or the bucket, is tied to the one behind it. */
  function Untied<A>(ds: seq<Dom<A>>, prev: Option<nat>, d: nat): seq<Dom<A>>
    requires d < |ds| && (prev.Some? ==> prev.value < |ds|)
  {
    if prev.Some? then ds[prev.value := ds[prev.value].(next := ds[d].next)] else ds
  }

  lemma TableUnlinked<A>(ds: seq<Dom<A>>, hash: seq<Data<()>>, freeDomain: Data<()>, index: map<Str, nat>,
                         free: seq<nat>, chains: seq<seq<nat>>, key: Str, d: nat, prev: Option<nat>, k: nat)
    requires Table(ds, hash, freeDomain, index, free, chains) && key in index && index[key] == d && d < |ds|
    requires |chains| > 0
    requires var chain := chains[Bucket(|chains|, key)];
             k < |chain| && chain[k] == d && prev == if k == 0 then None else Some(chain[k - 1])
    ensures prev.Some? ==> prev.value < |ds| && prev.value != d
    ensures var b := Bucket(|chains|, key);
            Table(Untied(ds, prev, d), if prev.Some? then hash else hash[b := ds[d].next], freeDomain, index - {key},
                  free, chains[b := chains[b][..k] + chains[b][k + 1..]])
  {
    var b := Bucket(|chains|, key);
    hide Bucket, Indexed, Shelved;
    UnlinkShelves(ds, hash, freeDomain, free, chains, b, k);
    ChainsApart(ds, hash, freeDomain, free, chains, b);
    IndexedClosed(ds, Untied(ds, prev, d), index, chains, key, b, k);
  }

  /** A record in no chain and not free may be put on the free list. */
  lemma TableFreed<A>(ds: seq<Dom<A>>, hash: seq<Data<()>>, freeDomain: Data<()>, index: map<Str, nat>, free: seq<nat>,
                      chains: seq<seq<nat>>, d: nat)
    requires Table(ds, hash, freeDomain, index, free, chains) && d < |ds| && d !in free && !Rented(index, d)
    ensures Table(ds[d := ds[d].(next := freeDomain)], hash, Next(d), index, [d] + free, chains)
  {
    hide Bucket, Shelved;
    var heads, lists, ds' := [freeDomain] + hash, [free] + chains, ds[d := ds[d].(next := freeDomain)];
    assert Tenant(ds, index, d) ==> Rented(index, d);
    forall i | 0 <= i < |lists| ensures d !in lists[i] {
      assert i > 0 ==> lists[i] == chains[i - 1];
    }
    ShelfPush(Chained(ds), heads, lists, 0, d);
    assert Chained(ds') == Chained(ds)[d := freeDomain];
    assert heads[0 := Next(d)] == [Next(d)] + hash && lists[0 := [d] + free] == [[d] + free] + chains;
    assert forall i :: Tenant(ds, index, i) ==> Tenant(ds', index, i);
    hide Rented;
  }

  lemma ChainsApart<A>(ds: seq<Dom<A>>, hash: seq<Data<()>>, freeDomain: Data<()>, free: seq<nat>,
                       chains: seq<seq<nat>>, b: nat)
    requires Shelved(Chained(ds), [freeDomain] + hash, [free] + chains) && b < |chains|
    ensures Apart(chains) && forall i, j :: 0 <= i < j < |chains[b]| ==> chains[b][i] != chains[b][j]
  {
    hide Shelved;
    var lists := [free] + chains;
    ShelvedIsApart(Chained(ds), [freeDomain] + hash, lists);
    assert lists[1 + b] == chains[b];
    forall i, j, x | 0 <= i < |chains| && 0 <= j < |chains| && x in chains[i] && x in chains[j] ensures i == j {
      assert x in lists[1 + i] && x in lists[1 + j];
    }
  }

  lemma UnlinkShelves<A>(ds: seq<Dom<A>>, hash: seq<Data<()>>, freeDomain: Data<()>, free: seq<nat>,
                         chains: seq<seq<nat>>, b: nat, k: nat)
    requires Shelved(Chained(ds), [freeDomain] + hash, [free] + chains) && |hash| == |chains| && b < |chains|
    requires k < |chains[b]|
    ensures var d := chains[b][k];
            var prev := if k == 0 then None else Some(chains[b][k - 1]);
            && d < |ds| && (prev.Some? ==> prev.value < |ds| && prev.value != d)
            && var hash1 := if prev.Some? then hash else hash[b := ds[d].next];
               Shelved(Chained(Untied(ds, prev, d)), [freeDomain] + hash1,
                       [free] + chains[b := chains[b][..k] + chains[b][k + 1..]])
  {
    hide Shelved, OnNone;
    var heads, lists, cells := [freeDomain] + hash, [free] + chains, Chained(ds);
    var less := chains[b][..k] + chains[b][k + 1..];
    Offset(free, chains, b, less);
    var d := chains[b][k];
    ShelvedIsApart(cells, heads, lists);
    if k == 0 {
      ShelfPop(cells, heads, lists, 1 + b);
      assert less == chains[b][1..];
      Offset(freeDomain, hash, b, ds[d].next);
    } else {
      ShelfUnlink(cells, heads, lists, 1 + b, k);
      var prev := chains[b][k - 1];
      assert lists[1 + b][k - 1] != lists[1 + b][k];
      assert Chained(Untied(ds, Some(prev), d)) == cells[prev := cells[d]];
    }
  }

  lemma IndexedClosed<A>(ds: seq<Dom<A>>, ds': seq<Dom<A>>, index: map<Str, nat>, chains: seq<seq<nat>>,
                         key: Str, b: nat, k: nat)
    requires Indexed(ds, index, chains) && |ds'| == |ds| && forall i :: 0 <= i < |ds| ==> ds'[i].name == ds[i].name
    requires key in index && b < |chains| && b == Bucket(|chains|, key) && k < |chains[b]| && chains[b][k] == index[key]
    requires forall i, j :: 0 <= i < j < |chains[b]| ==> chains[b][i] != chains[b][j]
    requires Apart(chains)
    ensures Indexed(ds', index - {key}, chains[b := chains[b][..k] + chains[b][k + 1..]])
  {
    hide Bucket;
    var d, less := index[key], chains[b][..k] + chains[b][k + 1..];
    var index', chains' := index - {key}, chains[b := less];
    WithoutOne(chains[b], k);
    assert d in chains[b];
    assert forall x :: x in chains[b] ==> x == d || x in less by {
      assert chains[b] == chains[b][..k] + [d] + chains[b][k + 1..];
    }
    forall i | i != d && Tenant(ds, index, i) ensures Tenant(ds', index', i) {
    }
    forall c, i | 0 <= c < |chains'| && i in chains'[c] ensures Tenant(ds', index', i) {
      assert i in chains[c] && i != d;
    }
    forall n | n in index'
      ensures index'[n] < |ds'| && ds'[index'[n]].name == n && index'[n] in chains'[Bucket(|chains|, n)]
    {
      assert index[n] != d;
    }
  }

  // ----- changes that leave one half alone

  lemma TableKept<A>(ds: seq<Dom<A>>, ds': seq<Dom<A>>, hash: seq<Data<()>>, freeDomain: Data<()>, index: map<Str, nat>,
                     free: seq<nat>, chains: seq<seq<nat>>)
    requires Table(ds, hash, freeDomain, index, free, chains) && |ds| == |ds'|
    requires forall i :: 0 <= i < |ds| ==> ds'[i].name == ds[i].name && ds'[i].next == ds[i].next
    ensures Table(ds', hash, freeDomain, index, free, chains)
  {
    hide Shelved, Bucket;
    assert Chained(ds') == Chained(ds);
    assert forall d :: Tenant(ds, index, d) ==> Tenant(ds', index, d);
  }

  /** Links of the table, times and names are nothing to the contexts. */
  lemma ContextsKept<A, F>(ds: seq<Dom<A>>, ds': seq<Dom<A>>, cs: seq<Ctx<F>>, freeCtx: Data<()>,
                           records: seq<Record<A, F>>, records': seq<Record<A, F>>,
                           spare: seq<nat>, waits: seq<seq<nat>>, held: seq<nat>)
    requires Contexts(ds, cs, freeCtx, records, spare, waits, held) && |ds| == |ds'| && |records| == |records'|
    requires forall i :: 0 <= i < |ds| ==> ds'[i].ctx == ds[i].ctx
    requires forall i :: 0 <= i < |ds'| && i < |records'| ==>
               records'[i].naddrs == ds'[i].naddrs && records'[i].addrs == ds'[i].addrs
    requires forall i :: 0 <= i < |records| ==> records'[i].waiting == records[i].waiting
    ensures Contexts(ds', cs, freeCtx, records', spare, waits, held)
  {
    hide Shelved, OnNone, WaitersAre;
    assert WaitHeads(ds') == WaitHeads(ds);
  }

  // ----- counting

  ghost function Waiters<A, F>(records: seq<Record<A, F>>): nat {
    if records == [] then 0 else |records[0].waiting| + Waiters(records[1..])
  }

  ghost function Deletions<A>(stack: seq<Frame<A>>): set<nat> {
    set i | 0 <= i < |stack| && stack[i].why.Deletion? :: stack[i].record
  }

  lemma AllInUse<A>(index: map<Str, nat>, free: seq<nat>, stack: seq<Frame<A>>, n: nat)
    requires Placed(index, free, stack, n) && forall i :: 0 <= i < |stack| ==> stack[i].record < n
    ensures n == |free| + |index.Keys| + |Deletions(stack)|
  {
    var used, gone := index.Values, Deletions(stack);
    AsMany(index, used);
    forall r ensures Rented(index, r) <==> r in used {
    }
    forall r ensures Closing(stack, r) <==> r in gone {
    }
    hide Rented, Closing;
    Counts(n, free, used, gone);
  }

  lemma ContextsInUse<A, F>(ds: seq<Dom<A>>, cs: seq<Ctx<F>>, freeCtx: Data<()>, records: seq<Record<A, F>>,
                            spare: seq<nat>, waits: seq<seq<nat>>, held: seq<nat>)
    requires Contexts(ds, cs, freeCtx, records, spare, waits, held)
    ensures |cs| == |spare| + Waiters(records) + |held|
  {
    hide Shelved, OnNone;
    ShelvesCountBut(CtxCells(cs), [freeCtx] + WaitHeads(ds), [spare] + waits, held);
    assert ([spare] + waits)[1..] == waits;
    forall d | 0 <= d < |waits| ensures |waits[d]| == |records[d].waiting| {
      assert WaitersAre(cs, waits[d], records[d].waiting);
    }
    SameTotal(waits, records);
  }

  lemma {:induction false} SameTotal<A, F>(waits: seq<seq<nat>>, records: seq<Record<A, F>>)
    requires |waits| == |records| && forall d :: 0 <= d < |waits| ==> |waits[d]| == |records[d].waiting|
    ensures TotalLength(waits) == Waiters(records)
    decreases waits
  {
    if waits != [] {
      SameTotal(waits[1..], records[1..]);
    }
  }

  // ----- the walk over all buckets

  /** The names in the buckets before `b`, and of the first `k` records of that one. */
  ghost predicate Visited(index: map<Str, nat>, chains: seq<seq<nat>>, b: nat, k: nat, n: Str) {
    && |chains| > 0 && n in index
    && var c := Bucket(|chains|, n);
       c < b || (c == b && k <= |chains[c]| && index[n] in chains[c][..k])
  }

  lemma NoneVisited(index: map<Str, nat>, chains: seq<seq<nat>>)
    ensures forall n :: !Visited(index, chains, 0, 0, n)
  {
    hide Bucket;
  }

  lemma NextBucket<A>(ds: seq<Dom<A>>, hash: seq<Data<()>>, freeDomain: Data<()>, index: map<Str, nat>, free: seq<nat>,
                      chains: seq<seq<nat>>, b: nat)
    requires Table(ds, hash, freeDomain, index, free, chains) && b < |chains|
    ensures forall n :: Visited(index, chains, b + 1, 0, n) <==> Visited(index, chains, b, |chains[b]|, n)
  {
    hide Bucket, Shelved;
    assert chains[b][..|chains[b]|] == chains[b];
  }

  /** The next record of a bucket is a domain that was not visited yet. */
  lemma OneVisited<A>(ds: seq<Dom<A>>, hash: seq<Data<()>>, freeDomain: Data<()>, index: map<Str, nat>, free: seq<nat>,
                      chains: seq<seq<nat>>, b: nat, k: nat)
    requires Table(ds, hash, freeDomain, index, free, chains) && b < |chains| && k < |chains[b]| && chains[b][k] < |ds|
    ensures var name := ds[chains[b][k]].name;
            && !Visited(index, chains, b, k, name)
            && forall n :: Visited(index, chains, b, k + 1, n) <==> Visited(index, chains, b, k, n) || n == name
  {
    hide Bucket, Shelved;
    var chain := chains[b];
    var name := ds[chain[k]].name;
    assert chain[k] in chain && Tenant(ds, index, chain[k]);
    ChainsApart(ds, hash, freeDomain, free, chains, b);
    assert Bucket(|chains|, name) == b;
    assert chain[..k + 1] == chain[..k] + [chain[k]];
  }

  lemma AllVisited<A>(ds: seq<Dom<A>>, hash: seq<Data<()>>, freeDomain: Data<()>, index: map<Str, nat>, free: seq<nat>,
                      chains: seq<seq<nat>>)
    requires Table(ds, hash, freeDomain, index, free, chains)
    ensures forall n :: Visited(index, chains, |chains|, 0, n) <==> n in index
  {
    hide Shelved;
  }

  /** The state after asking for the names, one after the other. */
  ghost function AfterAsks<A, F>(cfg: Config<A>, v: View<A, F>, names: seq<Str>): View<A, F>
    decreases |names|
  {
    if names == [] then v
    else Step(cfg, AfterAsks(cfg, v, names[..|names| - 1]), Ask(names[|names| - 1])).0
  }

  lemma OneMoreAsk<A, F>(cfg: Config<A>, v: View<A, F>, names: seq<Str>, name: Str)
    ensures AfterAsks(cfg, v, names + [name]) == Step(cfg, AfterAsks(cfg, v, names), Ask(name)).0
  {
    hide Step;
    assert (names + [name])[..|names|] == names;
  }

  // ----- steps

  lemma Stepped<A, F>(cfg: Config<A>, v: View<A, F>, a: Act<A, F>, w: View<A, F>, calls: seq<Call<A, F>>)
    requires Sane(v) && Enabled(v, a) && Effect(cfg, v, a) == (w, calls)
    ensures Step(cfg, v, a) == (w.(clock := v.clock + 1), calls) && Sane(w.(clock := v.clock + 1))
  {
    StepIsSane(cfg, v, a);
    hide Effect, Sane, Enabled;
  }

  /** The contexts in hand: one for every loop that waits for a callback. */
  ghost function InHand<A>(stack: seq<Frame<A>>): nat {
    if stack == [] || stack[|stack| - 1].busy then |stack| else |stack| - 1
  }

  lemma LocalsPushed<A>(stack: seq<Frame<A>>, f: Frame<A>)
    ensures LocalsOf(stack + [f]) == LocalsOf(stack) + [Locals(f.record, f.why, f.busy)]
  {
  }

  lemma LocalsPopped<A>(stack: seq<Frame<A>>)
    requires stack != []
    ensures LocalsOf(stack[..|stack| - 1]) == LocalsOf(stack)[..|stack| - 1]
  {
  }

  lemma LocalsTopped<A>(stack: seq<Frame<A>>, f: Frame<A>)
    requires stack != []
    ensures LocalsOf(stack[|stack| - 1 := f]) == LocalsOf(stack)[|stack| - 1 := Locals(f.record, f.why, f.busy)]
  {
  }

  lemma NothingYet<A, F>(buckets: nat)
    ensures Table<A>([], seq(buckets, _ => Null), Null, map[], [], seq(buckets, _ => []))
    ensures Contexts<A, F>([], [], Null, [], [], [], [])
  {
    var heads, lists := [Null] + seq(buckets, _ => Null), [[]] + seq(buckets, _ => []);
    assert forall i :: 0 <= i < |lists| ==> lists[i] == [] && heads[i] == Null;
    assert Shelved(Chained<A>([]), heads, lists);
  }

  class Resolver<A(!new), F(!new)> {
    const cfg: Config<A>
    var domains: seq<Dom<A>>
    var hash: seq<Data<()>>
    var freeDomain: Data<()>
    var nallocDomain: nat
    var nfreeDomain: nat
    var ctxs: seq<Ctx<F>>
    var freeCtx: Data<()>
    var nallocCtx: nat
    var nfreeCtx: nat
    /** The loops in progress, the innermost last, and the contexts they hold. */
    var stack: seq<Locals<A>>
    var held: seq<nat>
    var fault: Option<Fault>

    ghost var view: View<A, F>
    ghost var chains: seq<seq<nat>>
    ghost var waits: seq<seq<nat>>
    ghost var spare: seq<nat>

    /** The fields are those of the view. */
    ghost predicate Concrete()
      reads this
    {
      && (!cfg.closed ==> cfg.buckets > 0) && |chains| == cfg.buckets
      && Table(domains, hash, freeDomain, view.index, view.free, chains)
      && Contexts(domains, ctxs, freeCtx, view.records, spare, waits, held)
      && nallocDomain == |domains| && nfreeDomain == |view.free|
      && nallocCtx == |ctxs| && nfreeCtx == |spare| == view.spare
      && stack == LocalsOf(view.stack) && fault == view.fault
    }

    ghost predicate Valid()
      reads this
    {
      Sane(view) && Concrete() && |held| == InHand(view.stack)
    }

    constructor (cfg: Config<A>)
      requires !cfg.closed ==> cfg.buckets > 0
      ensures Valid() && view == Initial() && this.cfg == cfg
    {
      this.cfg := cfg;
      domains, ctxs := [], [];
      hash := seq(cfg.buckets, _ => Null);
      freeDomain, freeCtx := Null, Null;
      nallocDomain, nfreeDomain, nallocCtx, nfreeCtx := 0, 0, 0, 0;
      stack, held, fault := [], [], None;
      view, waits, spare := Initial(), [], [];
      chains := seq(cfg.buckets, _ => []);
      InitialIsSane<A, F>();
      NothingYet<A, F>(cfg.buckets);
      hide Table, Contexts, Sane;
    }

    lemma Parts()
      requires Concrete()
      ensures (!cfg.closed ==> cfg.buckets > 0) && |chains| == |hash| == cfg.buckets
      ensures Table(domains, hash, freeDomain, view.index, view.free, chains)
      ensures Contexts(domains, ctxs, freeCtx, view.records, spare, waits, held)
      ensures nallocDomain == |domains| && nfreeDomain == |view.free|
      ensures nallocCtx == |ctxs| && nfreeCtx == |spare| == view.spare
      ensures stack == LocalsOf(view.stack) && |stack| == |view.stack| && fault == view.fault
      ensures |view.records| == |domains| == |waits|
    {
    }

    lemma Whole()
      requires (!cfg.closed ==> cfg.buckets > 0) && |chains| == cfg.buckets
      requires Table(domains, hash, freeDomain, view.index, view.free, chains)
      requires Contexts(domains, ctxs, freeCtx, view.records, spare, waits, held)
      requires nallocDomain == |domains| && nfreeDomain == |view.free|
      requires nallocCtx == |ctxs| && nfreeCtx == |spare| == view.spare
      requires stack == LocalsOf(view.stack) && fault == view.fault
      ensures Concrete()
    {
    }

    /** The walk of a bucket, and the record before the one found. */
    method FindDomain(key: Str) returns (d: Option<nat>, prev: Option<nat>, ghost k: nat)
      requires Concrete() && !cfg.closed
      ensures Concrete()
      ensures d.Some? <==> key in view.index
      ensures d.Some? ==>
                var chain := chains[Bucket(cfg.buckets, key)];
                && d.value == view.index[key] && d.value < |domains| && k < |chain| && chain[k] == d.value
                && prev == if k == 0 then None else Some(chain[k - 1])
    {
      hide Table, Contexts, Bucket, Concrete;
      Parts();
      var b := Bucket(cfg.buckets, key);
      ghost var chain := chains[b];
      ChainHead(domains, hash, freeDomain, view.index, view.free, chains, b);
      var at := hash[b];
      prev := None;
      k := 0;
      while at != Null
        invariant Concrete() && k <= |chain|
        invariant at == if k < |chain| then Next(chain[k]) else Null
        invariant prev == if k == 0 then None else Some(chain[k - 1])
        invariant forall m :: 0 <= m < k ==> chain[m] < |domains| && domains[chain[m]].name != key
        decreases |chain| - k
      {
        ChainAt(domains, hash, freeDomain, view.index, view.free, chains, b, k);
        if domains[at.slot].name == key {
          return Some(at.slot), prev, k;
        }
        prev := Some(at.slot);
        at := domains[at.slot].next;
        k := k + 1;
      }
      if key in view.index {
        ChainHas(domains, hash, freeDomain, view.index, view.free, chains, key);
        assert false;
      }
      d := None;
    }

    // ----- a domain comes

    /** A new record for a domain, at the front of its bucket. */
    method OpenNew(key: Str) returns (d: nat)
      requires Concrete() && !cfg.closed && key !in view.index && freeDomain == Null
      modifies this`domains, this`hash, this`nallocDomain, this`view, this`chains, this`waits
      ensures Concrete() && Opened(old(view), key, true) == Some(view)
      ensures key in view.index && d == view.index[key] && d < |domains|
    {
      hide Table, Contexts, Bucket, Concrete;
      Parts();
      var b := Bucket(cfg.buckets, key);
      var dom: Dom<A> := Dom(key, 0, NoAddrs(), Null, hash[b]);
      ChainHead(domains, hash, freeDomain, view.index, view.free, chains, b);
      TableNew(domains, hash, freeDomain, view.index, view.free, chains, key);
      ContextsNew(domains, ctxs, freeCtx, view.records, spare, waits, held, dom, Cleared(view.clock, 0, 0));
      d := |domains|;
      domains := domains + [dom];
      hash := hash[b := Next(d)];
      nallocDomain := nallocDomain + 1;
      chains := chains[b := [d] + chains[b]];
      waits := waits + [[]];
      view := Opened(view, key, true).value;
      Whole();
    }

    /** The record freed last, cleared, for a domain, at the front of its bucket. */
    method OpenReused(key: Str) returns (d: nat)
      requires Valid() && !cfg.closed && key !in view.index && freeDomain != Null
      modifies this`domains, this`hash, this`freeDomain, this`nfreeDomain, this`view, this`chains
      ensures Concrete() && Opened(old(view), key, false) == Some(view) && old(view).free != []
      ensures key in view.index && d == view.index[key] && d < |domains|
    {
      hide Table, Contexts, Bucket, Concrete, Sane;
      Parts();
      InPlace(view);
      var b := Bucket(cfg.buckets, key);
      var dom: Dom<A> := Dom(key, 0, NoAddrs(), Null, hash[b]);
      ChainHead(domains, hash, freeDomain, view.index, view.free, chains, b);
      TableReused(domains, hash, freeDomain, view.index, view.free, chains, key);
      d := freeDomain.slot;
      ghost var rec: Record<A, F> := Cleared(view.clock, view.records[d].setAt, view.records[d].drainAt);
      ContextsCleared(domains, ctxs, freeCtx, view.records, spare, waits, held, d, dom, rec);
      ghost var w, chained := Opened(view, key, false).value, chains[b := [d] + chains[b]];
      assert Table(domains[d := dom], hash[b := Next(d)], domains[d].next, w.index, w.free, chained);
      assert Contexts(domains[d := dom], ctxs, freeCtx, w.records, spare, waits, held) && |w.free| == nfreeDomain - 1;
      assert w.stack == view.stack && w.spare == view.spare && w.fault == view.fault;
      hide Opened;
      Settle(d, dom, b, chained, w);
    }

    /** The record leaves the free list for its bucket. */
    method Settle(d: nat, dom: Dom<A>, b: nat, ghost chained: seq<seq<nat>>, ghost w: View<A, F>)
      requires d < |domains| && b < |hash| && nfreeDomain > 0
      requires (!cfg.closed ==> cfg.buckets > 0) && |chained| == cfg.buckets
      requires Table(domains[d := dom], hash[b := Next(d)], domains[d].next, w.index, w.free, chained)
      requires Contexts(domains[d := dom], ctxs, freeCtx, w.records, spare, waits, held)
      requires nallocDomain == |domains| && nfreeDomain - 1 == |w.free|
      requires nallocCtx == |ctxs| && nfreeCtx == |spare| == w.spare
      requires stack == LocalsOf(w.stack) && fault == w.fault
      modifies this`domains, this`hash, this`freeDomain, this`nfreeDomain, this`view, this`chains
      ensures Concrete() && view == w && |domains| == |old(domains)|
    {
      hide Table, Contexts, Concrete, LocalsOf;
      var ds, links, next := domains[d := dom], hash[b := Next(d)], domains[d].next;
      freeDomain, nfreeDomain := next, nfreeDomain - 1;
      domains, hash := ds, links;
      chains, view := chained, w;
      Whole();
    }

    /** get_domain, and its place in the table. */
    method Open(key: Str, room: bool) returns (d: Option<nat>)
      requires Valid() && !cfg.closed && key !in view.index
      modifies this`domains, this`hash, this`freeDomain, this`nallocDomain, this`nfreeDomain, this`view, this`chains,
               this`waits
      ensures Concrete() && view.stack == old(view).stack
      ensures match Opened(old(view), key, room)
              case Some(v) => view == v && d.Some? && key in view.index && d.value == view.index[key]
                && d.value < |domains|
              case None => view == old(view) && d.None?
    {
      hide Table, Contexts, Bucket, Concrete, Sane;
      FreeHead();
      InPlace(view);
      if freeDomain == Null {
        if !room {
          return None;
        }
        var n := OpenNew(key);
        return Some(n);
      }
      var n := OpenReused(key);
      return Some(n);
    }

    lemma FreeHead()
      requires Concrete() && !cfg.closed
      ensures freeDomain == Null <==> view.free == []
    {
      hide Table, Contexts;
      ChainHead(domains, hash, freeDomain, view.index, view.free, chains, 0);
    }

    /** add_domain */
    method AddDomain(name: Str, room: bool)
      requires Valid() && Idle(view)
      modifies this
      ensures Valid() && Step(cfg, old(view), Add(name, room)) == (view, [])
    {
      hide Valid, Opened, Sane, Concrete;
      ghost var v := view;
      IsValid();
      AddRest(name, room);
      Stepped(cfg, v, Add(name, room), view, []);
      Ticks(v);
    }

    method AddRest(name: Str, room: bool)
      requires Valid()
      modifies this`domains, this`hash, this`freeDomain, this`nallocDomain, this`nfreeDomain, this`view, this`chains,
               this`waits
      ensures Concrete() && view == AddStep(cfg, old(view), name, room) && |held| == InHand(view.stack)
    {
      hide Opened, Sane, Concrete;
      if name == [] || cfg.isAddress(name).Some? || cfg.closed || |name| > MAX_DOMAIN_LEN {
        return;
      }
      var key := LowerAll(name);
      var found, _, _ := FindDomain(key);
      if found.Some? {
        return;
      }
      var _ := Open(key, room);
    }

    lemma IsValid()
      requires Valid()
      ensures Sane(view) && Concrete() && |view.records| == |domains| && |view.stack| == |stack|
      ensures |held| == InHand(view.stack)
    {
    }

    /** One step more on the clock. */
    ghost method Ticks(v: View<A, F>)
      requires Concrete() && Sane(view.(clock := v.clock + 1)) && |held| == InHand(view.stack)
      modifies this`view
      ensures Valid() && view == old(view).(clock := v.clock + 1)
    {
      hide Sane, Table, Contexts;
      view := view.(clock := v.clock + 1);
    }

    // ----- drains

    /** A draining loop is about to begin on the record. */
    method BeginDrain(d: nat, why: Why<A>)
      requires Concrete() && Idle(view) && d < |domains| == |view.records| && |held| == InHand(view.stack)
      modifies this`stack, this`view
      ensures Concrete() && view == Drain(old(view), d, why) && |held| == InHand(view.stack)
    {
      hide Table, Contexts, Concrete;
      Parts();
      ghost var w := Drain(view, d, why);
      LocalsPushed(view.stack, Frame(d, why, view.clock, false));
      SameButTimes(d);
      ContextsKept(domains, domains, ctxs, freeCtx, view.records, w.records, spare, waits, held);
      stack := stack + [Locals(d, why, false)];
      view := w;
      Whole();
    }

    lemma SameButTimes(d: nat)
      requires Concrete()
      ensures forall i :: 0 <= i < |domains| && i < |view.records| ==>
                view.records[i].naddrs == domains[i].naddrs && view.records[i].addrs == domains[i].addrs
    {
    }

    /** del_domain, up to the loop: the domain leaves the table, its record nothing else yet. */
    method DelDomain(name: Str)
      requires Valid() && Idle(view)
      modifies this
      ensures Valid() && Step(cfg, old(view), Del(name)) == (view, [])
    {
      hide Valid, Sane, Concrete;
      ghost var v := view;
      IsValid();
      DelRest(name);
      Stepped(cfg, v, Del(name), view, []);
      Ticks(v);
    }

    method DelRest(name: Str)
      requires Valid() && Idle(view)
      modifies this`domains, this`hash, this`chains, this`stack, this`view
      ensures Concrete() && view == DelStep(cfg, old(view), name) && |held| == InHand(view.stack)
    {
      hide Sane, Concrete, Drain;
      InPlace(view);
      if name == [] || cfg.isAddress(name).Some? || cfg.closed || |name| > MAX_DOMAIN_LEN {
        return;
      }
      var key := LowerAll(name);
      var found, prev, k := FindDomain(key);
      if found.None? {
        return;
      }
      Unlink(key, found.value, prev, k);
      BeginDrain(found.value, Deletion);
    }

    /** The record leaves its chain. */
    method Unlink(key: Str, d: nat, prev: Option<nat>, ghost k: nat)
      requires Concrete() && !cfg.closed && key in view.index && d == view.index[key] && d < |domains|
      requires var chain := chains[Bucket(cfg.buckets, key)];
               k < |chain| && chain[k] == d && prev == if k == 0 then None else Some(chain[k - 1])
      modifies this`domains, this`hash, this`chains, this`view
      ensures Concrete() && view == old(view).(index := old(view).index - {key})
      ensures |domains| == |old(domains)| == |view.records|
    {
      hide Table, Contexts, Bucket, Concrete;
      Parts();
      var b := Bucket(cfg.buckets, key);
      TableUnlinked(domains, hash, freeDomain, view.index, view.free, chains, key, d, prev, k);
      SameButTimes(d);
      ContextsKept(domains, Untied(domains, prev, d), ctxs, freeCtx, view.records, view.records, spare, waits, held);
      if prev.None? {
        hash := hash[b := domains[d].next];
      } else {
        domains := domains[prev.value := domains[prev.value].(next := domains[d].next)];
      }
      chains := chains[b := chains[b][..k] + chains[b][k + 1..]];
      view := view.(index := view.index - {key});
      Whole();
    }

    /** on_result, up to the loop, for the record that a query referred to. */
    method OnResult(d: nat, addrs: seq<A>, pick: nat, ghost query: nat)
      requires Valid() && Idle(view) && query in view.queries && view.queries[query].record == d
      modifies this
      ensures Valid() && Step(cfg, old(view), Result(query, addrs, pick)) == (view, [])
    {
      hide Valid, Sane, Concrete;
      ghost var v := view;
      IsValid();
      InPlace(view);
      Pieces(view);
      ResultRest(d, addrs, pick, query);
      Stepped(cfg, v, Result(query, addrs, pick), view, []);
      Ticks(v);
    }

    method ResultRest(d: nat, addrs: seq<A>, pick: nat, ghost query: nat)
      requires Valid() && Idle(view) && query in view.queries
      requires view.queries[query].record == d < |domains| == |view.records|
      modifies this`domains, this`stack, this`view
      ensures Concrete() && view == ResultStep(old(view), query, addrs, pick) && |held| == InHand(view.stack)
    {
      hide Sane, Concrete, Drain;
      FramesAt(view, d);
      Forget(query);
      if addrs == [] {
        BeginDrain(d, Failure);
      } else {
        var n := Min(|addrs|, MAX_ADDRS);
        SetFirst(d, n, addrs[0]);
        BeginDrain(d, Answers(addrs, 0, pick % n));
      }
    }

    /** The query is over. */
    ghost method Forget(query: nat)
      requires Concrete()
      modifies this`view
      ensures Concrete() && view == old(view).(queries := old(view).queries - {query})
    {
      hide Table, Contexts;
      view := view.(queries := view.queries - {query});
    }

    /** The count is set and the first address is copied. */
    method SetFirst(d: nat, n: nat, addr: A)
      requires Concrete() && d < |domains| == |view.records| && |view.records[d].addrs| > 0
      modifies this`domains, this`view
      ensures Concrete() && |domains| == |old(domains)|
      ensures var rec := old(view).records[d];
              view == WithRecord(old(view), d,
                                 rec.(naddrs := n, addrs := rec.addrs[0 := Some(addr)], setAt := old(view).clock))
    {
      hide Table, Contexts, Concrete;
      Parts();
      SameButTimes(d);
      ghost var rec := view.records[d];
      ghost var records := view.records[d := rec.(naddrs := n, addrs := rec.addrs[0 := Some(addr)],
                                                  setAt := view.clock)];
      var ds := domains[d := domains[d].(naddrs := n, addrs := domains[d].addrs[0 := Some(addr)])];
      TableKept(domains, ds, hash, freeDomain, view.index, view.free, chains);
      ContextsKept(domains, ds, ctxs, freeCtx, view.records, records, spare, waits, held);
      domains := ds;
      view := view.(records := records);
      Whole();
    }

    /**
     The condition of the innermost loop: the next callback is called, out of the loop, or the loop ends, and with
     it, after the last address, the function that it is in.
     */
    method Loop(pick: nat) returns (calls: seq<Call<A, F>>)
      requires Valid() && Looping(view)
      modifies this
      ensures Valid() && Step(cfg, old(view), Act.Loop(pick)) == (view, calls)
    {
      hide Valid, Sane, Concrete;
      ghost var v := view;
      IsValid();
      calls := LoopRest(pick);
      Stepped(cfg, v, Act.Loop(pick), view, calls);
      Ticks(v);
    }

    method LoopRest(pick: nat) returns (calls: seq<Call<A, F>>)
      requires Valid() && Looping(view)
      modifies this
      ensures Concrete() && (view, calls) == LoopStep(old(view), pick) && |held| == InHand(view.stack)
    {
      hide Sane, Concrete;
      calls := [];
      TopIs();
      FramesAt(view, Top(view).record);
      var f := stack[|stack| - 1];
      var d := f.record;
      if domains[d].ctx != Null {
        calls := CallNext();
        return;
      }
      match f.why
      case Deletion => Free();
      case Failure => EndLoop();
      case Answers(given, i, n) =>
        if i + 1 >= domains[d].naddrs {
          EndLoop();
        } else if i + 1 >= |given| {
          Fail(ReadsBeyond);
        } else {
          CopyNext(pick);
        }
    }

    /** What the loop's variables and the record say. */
    lemma TopIs()
      requires Concrete() && view.stack != [] && Top(view).record < |view.records|
      ensures stack != [] && |stack| == |view.stack| && Top(view).record < |domains| == |view.records| == |waits|
      ensures var f := Top(view);
              var l, rec, dom := stack[|stack| - 1], view.records[f.record], domains[f.record];
              && l == Locals(f.record, f.why, f.busy)
              && rec.naddrs == dom.naddrs && rec.addrs == dom.addrs && (dom.ctx == Null <==> rec.waiting == [])
    {
      hide Table, Contexts, Concrete;
      Parts();
      ContextsHead(domains, ctxs, freeCtx, view.records, spare, waits, held, Top(view).record);
    }

    /** The context of the last who came is in hand, and its callback is called. */
    method CallNext() returns (calls: seq<Call<A, F>>)
      requires Valid() && Looping(view) && view.records[Top(view).record].waiting != []
      modifies this`domains, this`stack, this`held, this`view, this`waits
      ensures Concrete() && (view, calls) == LoopStep(old(view), 0) && |held| == InHand(view.stack)
    {
      hide Concrete, Sane;
      TopIs();
      var l := stack[|stack| - 1];
      var dom := domains[l.record];
      var answer := match l.why
                    case Answers(_, _, n) => (if n < |dom.addrs| then Own(dom.addrs[n]) else Nothing)
                    case _ => Nothing;
      var callback := Take(l.record);
      SetTop(l.why, true);
      calls := [Call(callback, answer)];
    }

    /** The first context of the record leaves it. */
    method Take(d: nat) returns (callback: F)
      requires Concrete() && d < |domains| == |view.records| && view.records[d].waiting != []
      modifies this`domains, this`held, this`view, this`waits
      ensures Concrete() && |held| == |old(held)| + 1 && callback == old(view).records[d].waiting[0].callback
      ensures var rec := old(view).records[d]; view == WithRecord(old(view), d, rec.(waiting := rec.waiting[1..]))
    {
      hide Table, Contexts, Concrete;
      Parts();
      ContextsHead(domains, ctxs, freeCtx, view.records, spare, waits, held, d);
      ContextsTaken(domains, ctxs, freeCtx, view.records, spare, waits, held, d);
      var x := domains[d].ctx.slot;
      callback := ctxs[x].callback.value;
      var ds := domains[d := domains[d].(ctx := ctxs[x].next)];
      TableKept(domains, ds, hash, freeDomain, view.index, view.free, chains);
      domains, held := ds, held + [x];
      waits := waits[d := waits[d][1..]];
      view := WithRecord(view, d, view.records[d].(waiting := view.records[d].waiting[1..]));
      Whole();
    }

    /** The variables of the innermost loop. */
    method SetTop(why: Why<A>, busy: bool)
      requires Concrete() && view.stack != []
      modifies this`stack, this`view
      ensures Concrete() && view == WithTop(old(view), Top(old(view)).(why := why, busy := busy))
    {
      hide Table, Contexts, Concrete;
      Parts();
      LocalsTopped(view.stack, Top(view).(why := why, busy := busy));
      stack := stack[|stack| - 1 := Locals(stack[|stack| - 1].record, why, busy)];
      view := WithTop(view, Top(view).(why := why, busy := busy));
      Whole();
    }

    /** The innermost loop is over. */
    method EndLoop()
      requires Valid() && Looping(view)
      modifies this`stack, this`view
      ensures Concrete() && view == Popped(old(view)) && |held| == InHand(view.stack)
    {
      hide Table, Contexts, Concrete, Sane;
      Parts();
      LocalsPopped(view.stack);
      BelowBusy(view);
      stack := stack[..|stack| - 1];
      view := Popped(view);
      Whole();
    }

    /** put_domain, when all have been told that the domain is gone. */
    method Free()
      requires Valid() && Looping(view) && Top(view).why.Deletion?
      modifies this`domains, this`freeDomain, this`nfreeDomain, this`stack, this`view
      ensures Concrete() && view == Popped(old(view)).(free := [Top(old(view)).record] + old(view).free)
      ensures |held| == InHand(view.stack)
    {
      hide Table, Contexts, Concrete, Sane;
      Parts();
      TopIs();
      var d := stack[|stack| - 1].record;
      TopIsGone(view);
      TableFreed(domains, hash, freeDomain, view.index, view.free, chains, d);
      SameButTimes(d);
      var ds := domains[d := domains[d].(next := freeDomain)];
      ContextsKept(domains, ds, ctxs, freeCtx, view.records, view.records, spare, waits, held);
      LocalsPopped(view.stack);
      BelowBusy(view);
      domains, freeDomain, nfreeDomain := ds, Next(d), nfreeDomain + 1;
      stack := stack[..|stack| - 1];
      view := Popped(view).(free := [d] + view.free);
      Whole();
    }

    /** The loop must not go on. */
    method Fail(f: Fault)
      requires Concrete()
      modifies this`fault, this`view
      ensures Concrete() && view == old(view).(fault := Some(f))
    {
      hide Table, Contexts;
      fault := Some(f);
      view := view.(fault := Some(f));
    }

    /** The next address is copied, and where to begin handing them out is drawn again. */
    method CopyNext(pick: nat)
      requires Concrete() && Looping(view) && view.records[Top(view).record].waiting == [] && Top(view).why.Answers?
      requires |held| == InHand(view.stack)
      requires var f, rec := Top(view), view.records[Top(view).record];
               f.why.i + 1 < rec.naddrs && f.why.i + 1 < |f.why.given| && f.why.i + 1 < |rec.addrs|
      modifies this`domains, this`stack, this`view
      ensures Concrete() && view == LoopStep(old(view), pick).0 && |held| == InHand(view.stack)
    {
      hide Concrete;
      TopIs();
      var l := stack[|stack| - 1];
      var naddrs := domains[l.record].naddrs;
      SetAddr(l.record, l.why.i + 1, l.why.given[l.why.i + 1]);
      SetTop(Answers(l.why.given, l.why.i + 1, pick % naddrs), false);
    }

    method SetAddr(d: nat, i: nat, addr: A)
      requires Concrete() && d < |domains| == |view.records| && i < |view.records[d].addrs|
      modifies this`domains, this`view
      ensures Concrete()
      ensures var rec := old(view).records[d];
              view == WithRecord(old(view), d, rec.(addrs := rec.addrs[i := Some(addr)]))
    {
      hide Table, Contexts, Concrete;
      Parts();
      SameButTimes(d);
      ghost var w := WithRecord(view, d, view.records[d].(addrs := view.records[d].addrs[i := Some(addr)]));
      var ds := domains[d := domains[d].(addrs := domains[d].addrs[i := Some(addr)])];
      TableKept(domains, ds, hash, freeDomain, view.index, view.free, chains);
      ContextsKept(domains, ds, ctxs, freeCtx, view.records, w.records, spare, waits, held);
      domains, view := ds, w;
      Whole();
    }

    /** A callback that a loop called returns into it. */
    method Returned()
      requires Valid() && InCallback(view)
      modifies this
      ensures Valid() && Step(cfg, old(view), Act.Return) == (view, [])
    {
      hide Valid, Sane, Concrete;
      ghost var v := view;
      IsValid();
      ReturnRest();
      Stepped(cfg, v, Act.Return, view, []);
      Ticks(v);
    }

    method ReturnRest()
      requires Valid() && InCallback(view)
      modifies this
      ensures Concrete() && view == ReturnStep(old(view)) && |held| == InHand(view.stack)
    {
      hide Sane, Concrete;
      TopIs();
      var f := stack[|stack| - 1];
      PutCtx();
      match f.why
      case Answers(given, i, n) =>
        var naddrs := domains[f.record].naddrs;
        if naddrs == 0 {
          SetTop(f.why, false);
          Fail(DividesByZero);
        } else {
          SetTop(Answers(given, i, (n + 1) % naddrs), false);
        }
      case _ => SetTop(f.why, false);
    }

    /** put_ctx */
    method PutCtx()
      requires Concrete() && held != []
      modifies this`ctxs, this`freeCtx, this`nfreeCtx, this`held, this`view, this`spare
      ensures Concrete() && |held| == |old(held)| - 1 && view == old(view).(spare := old(view).spare + 1)
    {
      hide Table, Contexts, Concrete;
      Parts();
      ContextsPut(domains, ctxs, freeCtx, view.records, spare, waits, held);
      var x := held[|held| - 1];
      ctxs := ctxs[x := ctxs[x].(next := freeCtx)];
      freeCtx, nfreeCtx := Next(x), nfreeCtx + 1;
      held := held[..|held| - 1];
      spare, view := [x] + spare, view.(spare := view.spare + 1);
      Whole();
    }

    // ----- asking

    /** start_resolver, as it is written; when its walk is lost it does not get to anything. */
    method StartResolver(name: Str, callback: F, room: bool, roomCtx: bool, pick: nat)
        returns (calls: seq<Call<A, F>>, lost: bool)
      requires Valid() && Idle(view)
      modifies this
      ensures Valid() && (lost <==> Takes(cfg, name) && Lost(old(domains), old(chains), LowerAll(name)))
      ensures !lost ==> Step(cfg, old(view), Start(name, callback, room, roomCtx, pick)) == (view, calls)
      ensures lost ==> view == old(view) && calls == []
    {
      hide Valid, Sane, Concrete, Lost;
      ghost var v := view;
      IsValid();
      calls, lost := StartRest(name, callback, room, roomCtx, pick);
      if lost {
        StillValid();
        return;
      }
      Stepped(cfg, v, Start(name, callback, room, roomCtx, pick), view, calls);
      Ticks(v);
    }

    lemma StillValid()
      requires Sane(view) && Concrete() && |held| == InHand(view.stack)
      ensures Valid()
    {
    }

    /** The first record of the bucket, if it is the one of the domain; past another one the walk does not get. */
    method FirstOfBucket(key: Str) returns (d: Option<nat>, lost: bool)
      requires Concrete() && !cfg.closed
      ensures Concrete() && (lost <==> Lost(domains, chains, key))
      ensures !lost ==> (d.Some? <==> key in view.index)
      ensures !lost && d.Some? ==> d.value == view.index[key] && d.value < |domains|
    {
      hide Table, Contexts, Bucket, Concrete;
      Parts();
      var b := Bucket(cfg.buckets, key);
      ChainHead(domains, hash, freeDomain, view.index, view.free, chains, b);
      if key in view.index {
        ChainHas(domains, hash, freeDomain, view.index, view.free, chains, key);
      }
      if hash[b] == Null {
        return None, false;
      }
      ChainAt(domains, hash, freeDomain, view.index, view.free, chains, b, 0);
      if domains[hash[b].slot].name == key {
        return Some(hash[b].slot), false;
      }
      return None, true;
    }

    method StartRest(name: Str, callback: F, room: bool, roomCtx: bool, pick: nat)
        returns (calls: seq<Call<A, F>>, lost: bool)
      requires Valid() && Idle(view)
      modifies this
      ensures Concrete() && |held| == InHand(view.stack)
      ensures lost <==> Takes(cfg, name) && Lost(old(domains), old(chains), LowerAll(name))
      ensures !lost ==> (view, calls) == StartStep(cfg, old(view), name, callback, room, roomCtx, pick)
      ensures lost ==> view == old(view) && calls == []
    {
      hide Sane, Concrete, Opened, Waiting, Lost;
      if name == [] {
        return [], false;
      }
      var literal := cfg.isAddress(name);
      if literal.Some? {
        return [Call(callback, Own(literal))], false;
      }
      if cfg.closed || |name| > MAX_DOMAIN_LEN {
        return [Call(callback, Nothing)], false;
      }
      var key := LowerAll(name);
      AddIsSane(cfg, view, name, room);
      var d;
      d, lost := FirstOfBucket(key);
      if lost {
        return [], true;
      }
      if d.None? {
        d := Open(key, room);
        if d.None? {
          return [Call(callback, Nothing)], false;
        }
      }
      SameLengths();
      calls := TellOrWait(d.value, callback, roomCtx, pick);
    }

    /** The domain is there: if it is resolved the callback is called at once, otherwise it waits. */
    method TellOrWait(d: nat, callback: F, roomCtx: bool, pick: nat) returns (calls: seq<Call<A, F>>)
      requires Concrete() && d < |domains| == |view.records|
      modifies this`domains, this`ctxs, this`freeCtx, this`nallocCtx, this`nfreeCtx, this`held, this`view, this`waits,
               this`spare
      ensures Concrete() && |held| == |old(held)| && view.stack == old(view).stack
      ensures var rec := old(view).records[d];
              (view, calls) ==
              if 0 < rec.naddrs <= |rec.addrs| then (old(view), [Call(callback, Own(rec.addrs[pick % rec.naddrs]))])
              else if old(view).spare == 0 && !roomCtx then (old(view), [Call(callback, Nothing)])
              else (Waiting(old(view), d, callback), [])
    {
      hide Concrete;
      var own := OneOf(d, pick);
      if own.Some? {
        return [Call(callback, Own(own.value))];
      }
      var ok := GetCtx(d, roomCtx);
      if !ok {
        return [Call(callback, Nothing)];
      }
      Push(d, callback);
      return [];
    }

    lemma SameLengths()
      requires Concrete()
      ensures |view.records| == |domains|
    {
    }

    /** One of the addresses, if the record has any. */
    method OneOf(d: nat, pick: nat) returns (addr: Option<Option<A>>)
      requires Concrete() && d < |domains| == |view.records|
      ensures Concrete()
      ensures var rec := view.records[d];
              addr == if 0 < rec.naddrs <= |rec.addrs| then Some(rec.addrs[pick % rec.naddrs]) else None
    {
      hide Table, Contexts, Concrete;
      SameButTimes(d);
      var dom := domains[d];
      if dom.naddrs == 0 || dom.naddrs > |dom.addrs| {
        return None;
      }
      return Some(dom.addrs[pick % dom.naddrs]);
    }

    /** get_ctx: a spare context, or a new one. */
    method GetCtx(d: nat, room: bool) returns (ok: bool)
      requires Concrete() && d < |domains|
      modifies this`ctxs, this`freeCtx, this`nallocCtx, this`nfreeCtx, this`held, this`view, this`spare
      ensures Concrete()
      ensures ok <==> old(view).spare > 0 || room
      ensures |held| == |old(held)| + if ok then 1 else 0
      ensures view == old(view).(spare := if old(view).spare > 0 then old(view).spare - 1 else 0)
    {
      hide Concrete;
      SpareHead(d);
      if freeCtx == Null {
        if room {
          NewCtx();
        }
        return room;
      }
      SpareCtx();
      return true;
    }

    lemma SpareHead(d: nat)
      requires Concrete() && d < |domains|
      ensures (freeCtx == Null <==> spare == []) && |spare| == view.spare
    {
      hide Table, Contexts;
      ContextsHead(domains, ctxs, freeCtx, view.records, spare, waits, held, d);
    }

    method NewCtx()
      requires Concrete()
      modifies this`ctxs, this`nallocCtx, this`held
      ensures Concrete() && |held| == |old(held)| + 1
    {
      hide Table, Contexts, Concrete;
      Parts();
      ContextsGotNew(domains, ctxs, freeCtx, view.records, spare, waits, held);
      held := held + [|ctxs|];
      ctxs, nallocCtx := ctxs + [Ctx(None, Null)], nallocCtx + 1;
      Whole();
    }

    method SpareCtx()
      requires Concrete() && spare != []
      modifies this`ctxs, this`freeCtx, this`nfreeCtx, this`held, this`view, this`spare
      ensures Concrete() && |held| == |old(held)| + 1 && view == old(view).(spare := |old(spare)| - 1)
    {
      hide Table, Contexts, Concrete;
      Parts();
      ContextsGot(domains, ctxs, freeCtx, view.records, spare, waits, held);
      var x := freeCtx.slot;
      freeCtx, nfreeCtx := ctxs[x].next, nfreeCtx - 1;
      ctxs, held := ctxs[x := Ctx(None, Null)], held + [x];
      spare, view := spare[1..], view.(spare := view.spare - 1);
      Whole();
    }

    /** The context in hand takes the callback to the record. */
    method Push(d: nat, callback: F)
      requires Concrete() && d < |domains| == |view.records| && held != []
      modifies this`domains, this`ctxs, this`held, this`view, this`waits
      ensures Concrete() && |held| == |old(held)| - 1
      ensures var rec := old(view).records[d];
              var w := Wait(callback, old(view).clock, BeingDrained(old(view), d));
              view == Asked(WithRecord(old(view), d, rec.(waiting := [w] + rec.waiting)), d)
    {
      hide Table, Contexts, Concrete;
      Parts();
      ghost var wait := Wait(callback, view.clock, BeingDrained(view, d));
      ContextsWait(domains, ctxs, freeCtx, view.records, spare, waits, held, d, wait);
      var x := held[|held| - 1];
      var ds := domains[d := domains[d].(ctx := Next(x))];
      TableKept(domains, ds, hash, freeDomain, view.index, view.free, chains);
      ctxs := ctxs[x := Ctx(Some(callback), domains[d].ctx)];
      domains, held := ds, held[..|held| - 1];
      waits := waits[d := [x] + waits[d]];
      view := Asked(WithRecord(view, d, view.records[d].(waiting := [wait] + view.records[d].waiting)), d);
      Whole();
    }

    /** on_timer: the walk over all buckets asks again for every domain of the table, once. */
    method OnTimer(exiting: bool) returns (asked: seq<Str>)
      requires Valid() && Idle(view)
      modifies this`view
      ensures Valid() && view == AfterAsks(cfg, old(view), asked)
      ensures exiting ==> asked == []
      ensures !exiting ==> forall n :: n in asked <==> n in old(view).index
      ensures forall i, j :: 0 <= i < j < |asked| ==> asked[i] != asked[j]
    {
      hide Valid, Sane, Concrete, Visited, Bucket, Table, Idle, Step;
      asked := [];
      if exiting {
        return;
      }
      ghost var v, c := view, chains;
      IsValid();
      NoneVisited(v.index, c);
      Lengths();
      for b := 0 to |hash|
        invariant Valid() && Idle(view) && |hash| == |c| && chains == c && view.index == v.index
        invariant view == AfterAsks(cfg, v, asked)
        invariant forall n :: n in asked <==> Visited(v.index, c, b, 0, n)
        invariant forall i, j :: 0 <= i < j < |asked| ==> asked[i] != asked[j]
      {
        asked := AskBucket(b, asked, v);
        Lengths();
        NextBucket(domains, hash, freeDomain, view.index, view.free, chains, b);
      }
      Lengths();
      AllVisited(domains, hash, freeDomain, view.index, view.free, chains);
    }

    /** One bucket of the walk; `before` was asked for in those in front of it. */
    method AskBucket(b: nat, before: seq<Str>, ghost v: View<A, F>) returns (asked: seq<Str>)
      requires Valid() && Idle(view) && b < |hash| == |chains| && view == AfterAsks(cfg, v, before)
      requires forall n :: n in before <==> Visited(view.index, chains, b, 0, n)
      requires forall i, j :: 0 <= i < j < |before| ==> before[i] != before[j]
      modifies this`view
      ensures Valid() && Idle(view) && view.index == old(view).index && view == AfterAsks(cfg, v, asked)
      ensures forall n :: n in asked <==> Visited(view.index, chains, b, |chains[b]|, n)
      ensures forall i, j :: 0 <= i < j < |asked| ==> asked[i] != asked[j]
    {
      hide Valid, Sane, Concrete, Table, Contexts, Visited, Bucket, Idle;
      IsValid();
      Parts();
      ghost var chain, k: nat := chains[b], 0;
      ChainHead(domains, hash, freeDomain, view.index, view.free, chains, b);
      asked := before;
      var at := hash[b];
      while at != Null
        invariant Valid() && Idle(view) && k <= |chain| && view.index == old(view).index
        invariant view == AfterAsks(cfg, v, asked)
        invariant at == if k < |chain| then Next(chain[k]) else Null
        invariant forall n :: n in asked <==> Visited(view.index, chains, b, k, n)
        invariant forall i, j :: 0 <= i < j < |asked| ==> asked[i] != asked[j]
        decreases |chain| - k
      {
        IsValid();
        Parts();
        ChainAt(domains, hash, freeDomain, view.index, view.free, chains, b, k);
        OneVisited(domains, hash, freeDomain, view.index, view.free, chains, b, k);
        var name := domains[at.slot].name;
        AskFor(name);
        OneMoreAsk(cfg, v, asked, name);
        asked := asked + [name];
        at := domains[at.slot].next;
        k := k + 1;
      }
    }

    /** ngx_event_resolver_start_resolver, for a domain of the table. */
    ghost method AskFor(name: Str)
      requires Valid() && Idle(view)
      modifies this`view
      ensures Valid() && Step(cfg, old(view), Act<A, F>.Ask(name)) == (view, [])
      ensures Idle(view) && view.index == old(view).index
    {
      hide Sane, Table, Contexts;
      ghost var v := view;
      Stepped(cfg, v, Act<A, F>.Ask(name), AskStep(v, name), []);
      view := AskStep(v, name).(clock := v.clock + 1);
    }

    lemma Lengths()
      requires Valid()
      ensures |hash| == |chains| && Table(domains, hash, freeDomain, view.index, view.free, chains)
    {
      hide Sane, Contexts, Shelved, Indexed;
    }

    /** gethostbyname: one of the addresses, if the domain is in the table and resolved; `pick` is the random choice. */
    method GetHostByName(name: Str, pick: nat) returns (addr: Option<A>)
      requires Valid()
      ensures Valid() && addr == HostOf(cfg, view, name, pick)
    {
      hide Sane, Concrete;
      var literal := cfg.isAddress(name);
      if literal.Some? {
        return literal;
      }
      if cfg.closed || |name| > MAX_DOMAIN_LEN {
        return None;
      }
      var found, _, _ := FindDomain(LowerAll(name));
      if found.None? {
        return None;
      }
      SameLengths();
      var own := OneOf(found.value, pick);
      return if own.Some? then own.value else None;
    }

    /**
     What is allocated is free or in use: a record by one domain, or by one that is being deleted; a context by one
     waiting callback, or by one that is running.
     */
    lemma Conserved()
      requires Valid()
      ensures nallocDomain == nfreeDomain + |view.index.Keys| + |Deletions(view.stack)|
      ensures nallocCtx == nfreeCtx + Waiters(view.records) + InHand(view.stack)
    {
      hide Table, Contexts;
      Parts();
      StackInRange(view);
      AllInUse(view.index, view.free, view.stack, |view.records|);
      ContextsInUse(domains, ctxs, freeCtx, view.records, spare, waits, held);
    }
  }

  lemma StackInRange<A, F>(v: View<A, F>)
    requires Sane(v)
    ensures Placed(v.index, v.free, v.stack, |v.records|)
    ensures forall i :: 0 <= i < |v.stack| ==> v.stack[i].record < |v.records|
  {
  }
}
