/**
 The reload of the dynamic configuration: two slots, one in use, switched only when a new configuration has been
 built whole. What is served is compared with the simple account of it: the configuration of the last content
 that was good.
 */
module Reload {
  import opened Bytes

  /** Where a load runs out of memory, if it does: before the pool for temporaries exists, or later. */
  datatype Fault = NoFault | Early | Late

  /** What one timed check meets. The file does not change during a check. */
  datatype Check = Check(exiting: bool, content: Option<Str>, readable: bool, fault: Fault)

  /** A built configuration and the pool it lives in. */
  datatype Ctx<+C> = Ctx(modules: C, pool: nat)

  function PoolOf<C>(slot: Option<Ctx<C>>): set<nat> {
    if slot.Some? then {slot.value.pool} else {}
  }

  // ----- the account

  /** The content being served, and the digest that the next check compares with. */
  datatype View = View(last: Option<Str>, key: nat)

  predicate Loads<C>(build: Str -> Option<C>, content: Str, fault: Fault) {
    fault == NoFault && build(content).Some?
  }

  /** A check that gets as far as comparing digests. */
  predicate Reads(c: Check) {
    !c.exiting && c.content.Some? && c.readable
  }

  function Step<C>(build: Str -> Option<C>, md5: Str -> nat, v: View, c: Check): View {
    if Reads(c) && md5(c.content.value) != v.key && Loads(build, c.content.value, c.fault)
    then View(c.content, md5(c.content.value))
    else v
  }

  function Track<C>(build: Str -> Option<C>, md5: Str -> nat, v: View, checks: seq<Check>): View
    decreases checks
  {
    if checks == [] then v else Track(build, md5, Step(build, md5, v, checks[0]), checks[1..])
  }

  /** The last content that could be read and built. */
  function LatestGood<C>(build: Str -> Option<C>, last: Str, checks: seq<Check>): Str
    decreases checks
  {
    if checks == [] then last
    else
      var c := checks[0];
      LatestGood(build, if Reads(c) && Loads(build, c.content.value, c.fault) then c.content.value else last,
                 checks[1..])
  }

  /** No two contents of a history have one digest. */
  ghost predicate Collide(md5: Str -> nat, a: Str, b: Str) {
    a != b && md5(a) == md5(b)
  }

  ghost predicate Seen(last: Str, checks: seq<Check>, s: Str) {
    s == last || exists i :: 0 <= i < |checks| && checks[i].content == Some(s)
  }

  /** With digests that tell the contents apart, what is served is the last good content. */
  lemma {:induction false} ServesLatestGood<C>(build: Str -> Option<C>, md5: Str -> nat, last: Str, checks: seq<Check>)
    requires forall a, b :: Seen(last, checks, a) && Seen(last, checks, b) ==> !Collide(md5, a, b)
    ensures Track(build, md5, View(Some(last), md5(last)), checks).last == Some(LatestGood(build, last, checks))
    decreases checks
  {
    if checks != [] {
      var c, rest := checks[0], checks[1..];
      var good := Reads(c) && Loads(build, c.content.value, c.fault);
      var next := if good then c.content.value else last;
      forall s | Seen(next, rest, s) ensures Seen(last, checks, s) {
        if s != next {
          var i :| 0 <= i < |rest| && rest[i].content == Some(s);
          assert checks[i + 1].content == Some(s);
        }
      }
      if good {
        assert Seen(last, checks, next) && Seen(last, checks, last);
        assert !Collide(md5, next, last);
      }
      assert Step(build, md5, View(Some(last), md5(last)), c) == View(Some(next), md5(next));
      ServesLatestGood(build, md5, next, rest);
    }
  }

  /** The contents that could be read and built, from the one being served on. */
  function Goods<C>(build: Str -> Option<C>, last: Str, checks: seq<Check>): (goods: seq<Str>)
    ensures goods != []
    decreases checks
  {
    if checks == [] then [last]
    else
      var c := checks[0];
      if Reads(c) && Loads(build, c.content.value, c.fault) then [last] + Goods(build, c.content.value, checks[1..])
      else Goods(build, last, checks[1..])
  }

  /** From the `k`-th on all have one digest, and the one before has another. */
  ghost predicate LastRun(md5: Str -> nat, goods: seq<Str>, k: nat) {
    && k < |goods|
    && (forall i :: k <= i < |goods| ==> md5(goods[i]) == md5(goods[k]))
    && (k > 0 ==> md5(goods[k - 1]) != md5(goods[k]))
  }

  /** `served` may be an older content of the digest of the last good one. */
  lemma {:induction false} ServedIs<C>(build: Str -> Option<C>, md5: Str -> nat, served: Str, last: Str,
                                       checks: seq<Check>)
      returns (k: nat)
    requires md5(served) == md5(last)
    ensures var goods := Goods(build, last, checks);
            && LastRun(md5, goods, k) && LatestGood(build, last, checks) == goods[|goods| - 1]
            && Track(build, md5, View(Some(served), md5(served)), checks)
               == View(Some(if k == 0 then served else goods[k]), md5(goods[k]))
    decreases checks
  {
    if checks == [] {
      return 0;
    }
    var c := checks[0];
    if !(Reads(c) && Loads(build, c.content.value, c.fault)) {
      k := ServedIs(build, md5, served, last, checks[1..]);
      return;
    }
    var good := c.content.value;
    var same := md5(good) == md5(served);
    var m := ServedIs(build, md5, if same then served else good, good, checks[1..]);
    var rest, goods := Goods(build, good, checks[1..]), Goods(build, last, checks);
    FirstIsServed(build, good, checks[1..]);
    assert goods == [last] + rest;
    k := if same && m == 0 then 0 else m + 1;
    forall i | k <= i < |goods| ensures md5(goods[i]) == md5(goods[k]) {
      assert i > 0 ==> goods[i] == rest[i - 1];
    }
  }

  lemma OneLastRun(md5: Str -> nat, goods: seq<Str>, k: nat, m: nat)
    requires LastRun(md5, goods, k) && LastRun(md5, goods, m)
    ensures k == m
  {
    assert k < m ==> k <= m - 1 < |goods|;
    assert m < k ==> m <= k - 1 < |goods|;
  }

  /**
   After any history the content served is the first of the last run of good contents with one digest, and the
   latest good one is the last of that run: the others of the run are passed over.
   */
  lemma ServesFirstOfLastRun<C>(build: Str -> Option<C>, md5: Str -> nat, last: Str, checks: seq<Check>, k: nat)
    requires LastRun(md5, Goods(build, last, checks), k)
    ensures var goods := Goods(build, last, checks);
            && Track(build, md5, View(Some(last), md5(last)), checks) == View(Some(goods[k]), md5(goods[k]))
            && LatestGood(build, last, checks) == goods[|goods| - 1]
  {
    var m := ServedIs(build, md5, last, last, checks);
    OneLastRun(md5, Goods(build, last, checks), k, m);
    FirstIsServed(build, last, checks);
  }

  lemma {:induction false} FirstIsServed<C>(build: Str -> Option<C>, last: Str, checks: seq<Check>)
    ensures Goods(build, last, checks)[0] == last
    decreases checks
  {
    if checks != [] {
      FirstIsServed(build, last, checks[1..]);
    }
  }

  /** After a history the latest good content and the one served are built differently. */
  ghost predicate Stale<C>(build: Str -> Option<C>, md5: Str -> nat, last: Str, checks: seq<Check>) {
    var v := Track(build, md5, View(Some(last), md5(last)), checks);
    v.last.None? || build(v.last.value) != build(LatestGood(build, last, checks))
  }

  function Meets(content: Str): Check {
    Check(false, Some(content), true, NoFault)
  }

  lemma {:induction false} GoodsBuild<C>(build: Str -> Option<C>, last: Str, checks: seq<Check>)
    requires build(last).Some?
    ensures forall i :: 0 <= i < |Goods(build, last, checks)| ==> build(Goods(build, last, checks)[i]).Some?
    decreases checks
  {
    if checks != [] {
      var c := checks[0];
      GoodsBuild(build, if Reads(c) && Loads(build, c.content.value, c.fault) then c.content.value else last,
                 checks[1..]);
    }
  }

  lemma StaleAfterOne<C>(build: Str -> Option<C>, md5: Str -> nat, last: Str, a: Str)
    requires build(last).Some? && build(a).Some? && md5(a) == md5(last) && build(a) != build(last)
    ensures Stale(build, md5, last, [Meets(a)])
  {
    assert [Meets(a)][1..] == [];
  }

  lemma StaleAfterTwo<C>(build: Str -> Option<C>, md5: Str -> nat, last: Str, a: Str, b: Str)
    requires build(a).Some? && build(b).Some? && md5(a) == md5(b) != md5(last) && build(a) != build(b)
    ensures Stale(build, md5, last, [Meets(a), Meets(b)])
  {
    var checks := [Meets(a), Meets(b)];
    assert checks[1..] == [Meets(b)] && [Meets(b)][1..] == [];
    var v := View(Some(last), md5(last));
    assert Step(build, md5, v, checks[0]) == View(Some(a), md5(a));
    assert Step(build, md5, View(Some(a), md5(a)), checks[1]) == View(Some(a), md5(a));
    assert Track(build, md5, v, checks) == Track(build, md5, View(Some(a), md5(a)), [Meets(b)]) ==
        View(Some(a), md5(a));
    assert LatestGood(build, last, checks) == LatestGood(build, a, [Meets(b)]) == b;
  }

  /**
   No history at all ends with a stale configuration if and only if no two contents of one digest are built
   differently, whatever content the server began with.
   */
  lemma NeverStaleIff<C>(build: Str -> Option<C>, md5: Str -> nat, last: Str)
    requires build(last).Some?
    ensures (forall checks :: !Stale(build, md5, last, checks)) <==>
            (forall a, b :: Collide(md5, a, b) && build(a).Some? && build(b).Some? ==> build(a) == build(b))
  {
    if forall a, b :: Collide(md5, a, b) && build(a).Some? && build(b).Some? ==> build(a) == build(b) {
      forall checks ensures !Stale(build, md5, last, checks) {
        var k := ServedIs(build, md5, last, last, checks);
        GoodsBuild(build, last, checks);
        var goods := Goods(build, last, checks);
        FirstIsServed(build, last, checks);
        assert Collide(md5, goods[k], goods[|goods| - 1]) || goods[k] == goods[|goods| - 1];
      }
    } else {
      var a, b :| Collide(md5, a, b) && build(a).Some? && build(b).Some? && build(a) != build(b);
      if md5(a) != md5(last) {
        StaleAfterTwo(build, md5, last, a, b);
      } else if build(a) != build(last) {
        StaleAfterOne(build, md5, last, a);
      } else {
        StaleAfterOne(build, md5, last, b);
      }
    }
  }

  // ----- the slots

  class Reloader<C> {
    const build: Str -> Option<C>
    const md5: Str -> nat
    const slots: array<Option<Ctx<C>>>
    var used: nat
    var md5key: nat
    /** Pools that were created and not destroyed. */
    var alive: set<nat>
    var nextPool: nat

    ghost var last: Option<Str>
    /** Pools of temporaries: a load that succeeds never destroys its own. */
    ghost var temps: set<nat>

    ghost function Abstract(): View
      reads this
    {
      View(last, md5key)
    }

    /** One slot is in use at most, and its pool and the forgotten ones are all that is alive. */
    ghost predicate Sound()
      reads this, slots
    {
      && slots.Length == 2 && used < 2
      && slots[1 - used] == None
      && (forall p :: p in alive ==> p < nextPool)
      && PoolOf(slots[used]) !! temps && alive == temps + PoolOf(slots[used])
    }

    ghost predicate Valid()
      reads this, slots
    {
      && Sound()
      && (if last.Some? then slots[used].Some? && build(last.value) == Some(slots[used].value.modules)
          else slots[used].None? && temps == {})
    }

    /** The directive sets `used` to 1, so that the first load goes to slot 0. */
    constructor (build: Str -> Option<C>, md5: Str -> nat)
      ensures Valid() && Abstract() == View(None, 0) && this.build == build && this.md5 == md5 && fresh(slots)
    {
      this.build, this.md5 := build, md5;
      var s := new Option<Ctx<C>>[2](_ => None);
      slots := s;
      used, md5key, alive, nextPool := 1, 0, {}, 0;
      last, temps := None, {};
    }

    method CreatePool() returns (p: nat)
      modifies this`alive, this`nextPool
      ensures p == old(nextPool) && nextPool == p + 1 && alive == old(alive) + {p}
    {
      p := nextPool;
      alive, nextPool := alive + {p}, nextPool + 1;
    }

    /** The switch: the old configuration goes with its pool, the new one takes the other slot. */
    method Switch(conf: Ctx<C>)
      requires slots.Length == 2 && used < 2
      modifies this`used, this`alive, slots
      ensures used == 1 - old(used) && slots[used] == Some(conf) && slots[1 - used] == None
      ensures alive == old(alive) - PoolOf(old(slots[used]))
    {
      if slots[used].Some? {
        var gone := slots[used].value.pool;
        slots[used] := None;
        alive := alive - {gone};
      }
      used := if used != 0 then 0 else 1;
      slots[used] := Some(conf);
    }

    lemma Destroyed(before: set<nat>, pool: nat, temp: nat)
      requires pool !in before && temp !in before && pool != temp
      ensures before + {pool} - {pool} == before
      ensures before + {pool} + {temp} - {temp} - {pool} == before
    {
    }

    lemma Switched(before: set<nat>, served: set<nat>, temps: set<nat>, pool: nat, temp: nat)
      requires served !! temps && before == temps + served && (forall p :: p in before ==> p < pool) && temp == pool + 1
      ensures before + {pool} + {temp} - served == temps + {temp} + {pool}
      ensures forall p :: p in temps + {temp} + {pool} ==> p < temp + 1
      ensures {pool} !! temps + {temp}
    {
    }

    /** A load that succeeds. */
    method Install(modules: C)
      requires Sound()
      modifies this`used, this`alive, this`nextPool, this`temps, slots
      ensures Sound()
      ensures used == 1 - old(used) && old(nextPool) + 1 !in old(temps) && temps == old(temps) + {old(nextPool) + 1}
      ensures slots[used].Some? && slots[used].value.modules == modules
    {
      hide PoolOf, Sound, Valid;
      IsSound();
      Switched(alive, PoolOf(slots[used]), temps, nextPool, nextPool + 1);
      var pool := CreatePool();
      var temp := CreatePool();
      Switch(Ctx(modules, pool));
      temps := temps + {temp};
      PoolOfSome(slots[used]);
      MakeSound();
    }

    lemma IsSound()
      requires Sound()
      ensures slots.Length == 2 && used < 2 && PoolOf(slots[used]) !! temps && alive == temps + PoolOf(slots[used])
      ensures forall p :: p in alive ==> p < nextPool
    {
    }

    lemma MakeSound()
      requires slots.Length == 2 && used < 2 && slots[1 - used] == None && forall p :: p in alive ==> p < nextPool
      requires PoolOf(slots[used]) !! temps && alive == temps + PoolOf(slots[used])
      ensures Sound()
    {
    }

    lemma PoolOfSome(slot: Option<Ctx<C>>)
      requires slot.Some?
      ensures PoolOf(slot) == {slot.value.pool}
    {
    }

    /** The pools of a load, made and, when it fails, unmade; `modules` is what parsing comes to. */
    method LoadBuilt(modules: Option<C>, fault: Fault) returns (ok: bool)
      requires Sound()
      modifies this`used, this`alive, this`nextPool, this`temps, slots
      ensures Sound()
      ensures ok <==> fault == NoFault && modules.Some?
      ensures ok ==> used == 1 - old(used) && exists t :: t !in old(temps) && temps == old(temps) + {t}
      ensures ok ==> slots[used].Some? && slots[used].value.modules == modules.value
      ensures !ok ==> used == old(used) && slots[..] == old(slots[..]) && alive == old(alive) && temps == old(temps)
    {
      hide PoolOf;
      if fault == NoFault && modules.Some? {
        Install(modules.value);
        return true;
      }
      Destroyed(alive, nextPool, nextPool + 1);
      var pool := CreatePool();
      if fault != Early {
        var temp := CreatePool();
        alive := alive - {temp};
      }
      alive := alive - {pool};
      return false;
    }

    /** load_conf: a failure leaves everything as it was, down to the pools. */
    method LoadConf(content: Str, fault: Fault) returns (ok: bool)
      requires Valid()
      modifies this`used, this`alive, this`nextPool, this`last, this`temps, slots
      ensures Valid()
      ensures ok <==> Loads(build, content, fault)
      ensures ok ==> last == Some(content) && used == 1 - old(used)
      ensures ok ==> exists t :: t !in old(temps) && temps == old(temps) + {t}
      ensures !ok ==> last == old(last) && used == old(used) && slots[..] == old(slots[..])
      ensures !ok ==> alive == old(alive) && temps == old(temps)
    {
      ok := LoadBuilt(build(content), fault);
      if ok {
        last := Some(content);
      }
    }

    /** process_init: one load, and the digest of what was loaded. */
    method ProcessInit(content: Option<Str>, readable: bool, fault: Fault) returns (ok: bool)
      requires Valid() && last == None
      modifies this, slots
      ensures Valid()
      ensures ok <==> content.Some? && Loads(build, content.value, fault) && readable
      ensures ok ==> Abstract() == View(content, md5(content.value))
    {
      if content.None? {
        return false;
      }
      var loaded := LoadConf(content.value, fault);
      if !loaded || !readable {
        return false;
      }
      md5key := md5(content.value);
      return true;
    }

    /** check_conf; `again` is whether the timer is set again. */
    method CheckConf(c: Check) returns (again: bool)
      requires Valid()
      modifies this, slots
      ensures Valid() && again == !c.exiting
      ensures Abstract() == Step(build, md5, old(Abstract()), c)
      ensures !(Reads(c) && md5(c.content.value) != old(md5key) && Loads(build, c.content.value, c.fault)) ==>
                used == old(used) && slots[..] == old(slots[..]) && alive == old(alive) && md5key == old(md5key)
    {
      if c.exiting {
        return false;
      }
      again := true;
      if c.content.None? || !c.readable {
        return;
      }
      var key := md5(c.content.value);
      if md5key == key {
        return;
      }
      var ok := LoadConf(c.content.value, c.fault);
      if !ok {
        return;
      }
      md5key := key;
    }

    /** ngx_get_dconf, for all modules at once: the configuration of the content that is served, in a living pool. */
    method GetDconf() returns (conf: Option<C>)
      requires Valid()
      ensures conf == (if last.None? then None else build(last.value))
      ensures conf.Some? ==> slots[used].Some? && slots[used].value.pool in alive
    {
      if slots[used].None? {
        return None;
      }
      return Some(slots[used].value.modules);
    }

    /** Every history of checks is the account's. */
    method Run(checks: seq<Check>)
      requires Valid()
      modifies this, slots
      ensures Valid() && Abstract() == Track(build, md5, old(Abstract()), checks)
    {
      ghost var start := Abstract();
      for i := 0 to |checks|
        invariant Valid() && Abstract() == Track(build, md5, start, checks[..i])
      {
        var _ := CheckConf(checks[i]);
        TrackOneMore(build, md5, start, checks[..i], checks[i]);
        assert checks[..i + 1] == checks[..i] + [checks[i]];
      }
      assert checks[..|checks|] == checks;
    }
  }

  lemma {:induction false} TrackOneMore<C>(build: Str -> Option<C>, md5: Str -> nat, v: View, checks: seq<Check>,
                                           c: Check)
    ensures Track(build, md5, v, checks + [c]) == Step(build, md5, Track(build, md5, v, checks), c)
    decreases checks
  {
    if checks == [] {
      assert (checks + [c])[1..] == [];
    } else {
      assert (checks + [c])[1..] == checks[1..] + [c];
      TrackOneMore(build, md5, Step(build, md5, v, checks[0]), checks[1..], c);
    }
  }
}
