/**
 The recycler of receive buffers: chains of a size are handed out and taken back, each size with its own free
 list threaded through the chains' own `next` pointers, and a map of the chains that are out. While a chain is
 out its holder does with `next` and the buffer what it likes.
 */
module ChainBuf {
  import opened Bytes
  import opened FreeList

  /** A chain with its buffer, whose bytes are `[0, size)`; known by its place among all allocated chains. */
  datatype Chain = Chain(size: nat, next: Data<()>, pos: nat, last: nat, end: nat)

  ghost function Nexts(chains: seq<Chain>): (cells: seq<Data<()>>)
    ensures |cells| == |chains| && forall i :: 0 <= i < |chains| ==> cells[i] == chains[i].next
  {
    Cells(chains, (c: Chain) => c.next)
  }

  /** The list of a size: chains of that size that are not out. */
  ghost predicate ListOf(chains: seq<Chain>, size: nat, head: Data<()>, free: seq<nat>, using: set<nat>) {
    && Threaded(Nexts(chains), free, head)
    && forall c :: c in free ==> c < |chains| && chains[c].size == size && c !in using
  }

  ghost predicate Listed(chains: seq<Chain>, heads: map<nat, Data<()>>, frees: map<nat, seq<nat>>, using: set<nat>) {
    && frees.Keys == heads.Keys
    && forall s :: s in heads ==> ListOf(chains, s, heads[s], frees[s], using)
  }

  /** Every chain is out or on the list of its size. */
  ghost predicate Complete(chains: seq<Chain>, frees: map<nat, seq<nat>>, using: set<nat>) {
    && (forall c :: c in using ==> c < |chains|)
    && (forall c :: 0 <= c < |chains| ==> chains[c].size in frees)
    && (forall c :: 0 <= c < |chains| && c !in using ==> c in frees[chains[c].size])
  }

  lemma ListedNewSize(chains: seq<Chain>, heads: map<nat, Data<()>>, frees: map<nat, seq<nat>>, using: set<nat>,
                      size: nat)
    requires Listed(chains, heads, frees, using) && size !in heads
    ensures Listed(chains, heads[size := Null], frees[size := []], using)
  {
    ThreadedNone(Nexts(chains));
    assert ListOf(chains, size, Null, [], using);
    hide ListOf;
  }

  lemma ListKept(chains: seq<Chain>, chains': seq<Chain>, size: nat, head: Data<()>, free: seq<nat>,
                 using: set<nat>, using': set<nat>)
    requires ListOf(chains, size, head, free, using) && |chains| <= |chains'|
    requires forall c :: c in free && c < |chains| ==> chains'[c] == chains[c] && c !in using'
    ensures ListOf(chains', size, head, free, using')
  {
    hide Threaded;
    ThreadedKept(Nexts(chains), Nexts(chains'), free, head);
  }

  /** Chains that are on no list may change and new ones come. */
  lemma ListedKept(chains: seq<Chain>, chains': seq<Chain>, heads: map<nat, Data<()>>, frees: map<nat, seq<nat>>,
                   using: set<nat>, using': set<nat>)
    requires Listed(chains, heads, frees, using) && |chains| <= |chains'|
    requires forall c :: 0 <= c < |chains| && c !in using ==> chains'[c] == chains[c]
    requires forall c :: c in using' ==> c in using || c >= |chains|
    ensures Listed(chains', heads, frees, using')
  {
    hide Threaded;
    forall s | s in heads ensures ListOf(chains', s, heads[s], frees[s], using') {
      assert ListOf(chains, s, heads[s], frees[s], using);
      ListKept(chains, chains', s, heads[s], frees[s], using, using');
    }
  }

  lemma ListedPop(chains: seq<Chain>, heads: map<nat, Data<()>>, frees: map<nat, seq<nat>>, using: set<nat>, size: nat)
    requires Listed(chains, heads, frees, using) && size in heads && heads[size] != Null
    ensures size in frees && frees[size] != []
    ensures var c := frees[size][0];
            && heads[size] == Next(c) && c < |chains| && chains[c].size == size && c !in using
            && Listed(chains, heads[size := chains[c].next], frees[size := frees[size][1..]], using + {c})
            && (forall i :: i in frees[size] <==> i == c || i in frees[size][1..])
  {
    hide Threaded;
    assert ListOf(chains, size, heads[size], frees[size], using);
    ThreadedHead(Nexts(chains), frees[size], heads[size]);
    ThreadedPop(Nexts(chains), frees[size], heads[size]);
    var c := frees[size][0];
    assert ListOf(chains, size, chains[c].next, frees[size][1..], using + {c});
    forall s | s in heads && s != size ensures ListOf(chains, s, heads[s], frees[s], using + {c}) {
      assert ListOf(chains, s, heads[s], frees[s], using);
      ListKept(chains, chains, s, heads[s], frees[s], using, using + {c});
    }
    hide ListOf;
  }

  lemma ListedPush(chains: seq<Chain>, heads: map<nat, Data<()>>, frees: map<nat, seq<nat>>, using: set<nat>, c: nat)
    requires Listed(chains, heads, frees, using) && c in using && c < |chains| && chains[c].size in heads
    ensures var size := chains[c].size;
            Listed(chains[c := chains[c].(next := heads[size])], heads[size := Next(c)],
                   frees[size := [c] + frees[size]],
                   using - {c})
  {
    hide Threaded;
    var size := chains[c].size;
    var chains' := chains[c := chains[c].(next := heads[size])];
    assert ListOf(chains, size, heads[size], frees[size], using);
    ThreadedPush(Nexts(chains), Nexts(chains'), frees[size], heads[size], c);
    assert ListOf(chains', size, Next(c), [c] + frees[size], using - {c});
    forall s | s in heads && s != size ensures ListOf(chains', s, heads[s], frees[s], using - {c}) {
      assert ListOf(chains, s, heads[s], frees[s], using);
      ListKept(chains, chains', s, heads[s], frees[s], using, using - {c});
    }
    hide ListOf;
  }

  class Recycler {
    var ready: bool
    var chains: seq<Chain>
    /** The map of sizes. */
    var heads: map<nat, Data<()>>
    /** The map of chains that are out. */
    var using: set<nat>
    var nallocNode: nat
    var nallocChain: nat
    var nfreeChain: nat

    ghost var frees: map<nat, seq<nat>>

    ghost predicate Valid()
      reads this
    {
      && Listed(chains, heads, frees, using) && Complete(chains, frees, using)
      && nallocChain == |chains| && nallocNode == |heads.Keys|
      && nallocChain == nfreeChain + |using|
      && (!ready ==> chains == [] && heads == map[])
    }

    constructor ()
      ensures Valid() && using == {} && chains == []
    {
      ready, chains, heads, using, frees := false, [], map[], {}, map[];
      nallocNode, nallocChain, nfreeChain := 0, 0, 0;
    }

    /** No chain is on two lists or twice on one, and what is counted free is what is on the lists. */
    lemma Conserved()
      requires Valid()
      ensures nfreeChain == nallocChain - |using|
      ensures forall s, i, j :: s in frees && 0 <= i < j < |frees[s]| ==> frees[s][i] != frees[s][j]
      ensures forall s, t, c :: s in frees && t in frees && c in frees[s] && c in frees[t] ==> s == t
      ensures forall c :: 0 <= c < |chains| ==> (c in using <==> !exists s :: s in frees && c in frees[s])
    {
      hide Threaded, Complete;
      forall s | s in frees ensures forall i, j :: 0 <= i < j < |frees[s]| ==> frees[s][i] != frees[s][j] {
        assert ListOf(chains, s, heads[s], frees[s], using);
        ThreadedIsDistinct(Nexts(chains), frees[s], heads[s]);
      }
      OnOneListOnly();
    }

    lemma OnOneListOnly()
      requires Listed(chains, heads, frees, using) && Complete(chains, frees, using)
      ensures forall s, c :: s in frees && c in frees[s] ==> c < |chains| && chains[c].size == s && c !in using
      ensures forall c :: 0 <= c < |chains| ==> (c in using <==> !exists s :: s in frees && c in frees[s])
    {
      hide Threaded;
      forall s, c | s in frees && c in frees[s] ensures c < |chains| && chains[c].size == s && c !in using {
        assert ListOf(chains, s, heads[s], frees[s], using);
      }
    }

    /** ngx_rbuf_init, on the first request */
    method Init()
      requires Valid()
      modifies this`ready, this`heads, this`using, this`nallocNode, this`nallocChain, this`nfreeChain
      ensures Valid() && ready && heads == old(heads) && using == old(using)
      ensures nallocChain == old(nallocChain)
    {
      if ready {
        return;
      }
      assert using == {} by {
        if c :| c in using {
          assert c < |chains|;
        }
      }
      ready, heads, using := true, map[], {};
      nallocNode, nallocChain, nfreeChain := 0, 0, 0;
    }

    /**
     get_chainbuf_debug: a chain of exactly this size with an empty buffer and nothing behind it, the last one put
     back if there is one. `node` and `chain` say whether there is memory for a new size and a new chain.
     */
    method Get(size: nat, node: bool, chain: bool) returns (r: Option<nat>)
      requires Valid()
      modifies this
      ensures Valid()
      ensures r.None? <==>
                (size !in old(heads) && !node) || ((size !in old(heads) || old(heads)[size] == Null) && !chain)
      ensures r.None? ==> chains == old(chains) && using == old(using)
      ensures r.Some? ==>
                && r.value !in old(using) && using == old(using) + {r.value}
                && r.value < |chains| && chains[r.value] == Chain(size, Null, 0, 0, size)
                && (forall c :: 0 <= c < |old(chains)| && c != r.value ==> c < |chains| && chains[c] == old(chains)[c])
                && (if size in old(frees) && old(frees)[size] != []
                    then r.value == old(frees)[size][0] && |chains| == |old(chains)|
                    else r.value == |old(chains)| && |chains| == |old(chains)| + 1)
    {
      hide Listed, Complete;
      Heads(size);
      Init();
      if size !in heads {
        if !node {
          return None;
        }
        NewSize(size);
      }
      Heads(size);
      if heads[size] != Null {
        var c := Reuse(size);
        r := Some(c);
      } else {
        if !chain {
          return None;
        }
        var c := Allocate(size);
        r := Some(c);
      }
    }

    lemma Heads(size: nat)
      requires Listed(chains, heads, frees, using)
      ensures size in heads <==> size in frees
      ensures size in heads ==> heads[size] == if frees[size] == [] then Null else Next(frees[size][0])
    {
      hide Threaded;
      if size in heads {
        assert ListOf(chains, size, heads[size], frees[size], using);
        ThreadedHead(Nexts(chains), frees[size], heads[size]);
      }
    }

    method NewSize(size: nat)
      requires Valid() && ready && size !in heads
      modifies this`heads, this`nallocNode, this`frees
      ensures Valid() && heads == old(heads)[size := Null] && frees == old(frees)[size := []]
    {
      hide Listed;
      ListedNewSize(chains, heads, frees, using, size);
      Heads(size);
      heads, frees := heads[size := Null], frees[size := []];
      nallocNode := nallocNode + 1;
    }

    /** The first chain of a size's list. */
    method Reuse(size: nat) returns (c: nat)
      requires Valid() && size in heads && heads[size] != Null
      modifies this`chains, this`heads, this`nfreeChain, this`using, this`frees
      ensures Valid() && size in old(frees) && old(frees)[size] != [] && c == old(frees)[size][0]
      ensures c < |old(chains)| && chains == old(chains)[c := Chain(size, Null, 0, 0, size)]
      ensures c !in old(using) && using == old(using) + {c}
    {
      hide Listed;
      ListedPop(chains, heads, frees, using, size);
      c := heads[size].slot;
      FewerThan(|chains|, using, c);
      heads := heads[size := chains[c].next];
      frees := frees[size := frees[size][1..]];
      ghost var was, wasUsing := chains, using + {c};
      chains := chains[c := Chain(size, Null, 0, 0, size)];
      nfreeChain := nfreeChain - 1;
      using := using + {c};
      ListedKept(was, chains, heads, frees, using, using);
    }

    method Allocate(size: nat) returns (c: nat)
      requires Valid() && ready && size in heads
      modifies this`chains, this`nallocChain, this`using
      ensures Valid() && c == |old(chains)| && chains == old(chains) + [Chain(size, Null, 0, 0, size)]
      ensures c !in old(using) && using == old(using) + {c}
    {
      hide Listed;
      Heads(size);
      c := |chains|;
      ghost var was, wasUsing := chains, using;
      chains := chains + [Chain(size, Null, 0, 0, size)];
      nallocChain := nallocChain + 1;
      using := using + {c};
      ListedKept(was, chains, heads, frees, wasUsing, using);
    }

    /** The holder of a chain links it and fills its buffer. */
    method Use(c: nat, next: Data<()>, pos: nat, last: nat)
      requires Valid() && c in using && c < |chains|
      modifies this`chains
      ensures Valid() && chains == old(chains)[c := old(chains)[c].(next := next, pos := pos, last := last)]
    {
      hide Listed;
      ghost var was := chains;
      chains := chains[c := chains[c].(next := next, pos := pos, last := last)];
      ListedKept(was, chains, heads, frees, using, using);
    }

    /**
     put_chainbuf_debug: the chain becomes the first of its size's list. It is linked and counted before anyone
     looks whether it is out: the recycler stays sound exactly when it was. `ok` is false for a chain put twice.
     */
    method Put(cl: Option<nat>) returns (ok: bool)
      requires Valid() && (cl.Some? ==> cl.value < |chains|)
      modifies this
      ensures cl.None? ==> Valid() && ok && chains == old(chains) && using == old(using) && frees == old(frees)
      ensures cl.Some? ==> (Valid() <==> cl.value in old(using)) && (ok <==> cl.value in old(using))
      ensures cl.Some? ==> using == old(using) - {cl.value}
      ensures ok && cl.Some? ==>
                var size := old(chains)[cl.value].size;
                && size in old(frees) && frees == old(frees)[size := [cl.value] + old(frees)[size]]
                && |chains| == |old(chains)| && chains[cl.value].size == size
                && forall c :: 0 <= c < |chains| && c != cl.value ==> chains[c] == old(chains)[c]
    {
      hide Listed;
      ok := true;
      if !ready || cl.None? {
        return;
      }
      var c := cl.value;
      var size := chains[c].size;
      Heads(size);
      if size !in heads {
        assert false;
      }
      if c in using {
        ListedPush(chains, heads, frees, using, c);
        frees := frees[size := [c] + frees[size]];
      }
      chains := chains[c := chains[c].(next := heads[size])];
      heads := heads[size := Next(c)];
      nfreeChain := nfreeChain + 1;
      if c !in using {
        return false;
      }
      using := using - {c};
    }
  }
}
