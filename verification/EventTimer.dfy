/**
 The worker's timer pool: a fixed array of slots, the free ones linked through the same field that carries a
 timer's data while it is armed. Handlers run in the middle of an expiry and may add and delete timers, their
 own included; a run of the pool is therefore a tree of actions, and what it does is told as a log of events
 that a plain registry of timers must accept.
 */
module EventTimer {
  import opened Bytes
  import opened FreeList

  datatype Timer<+H, +D> = Timer(handler: H, data: D)

  // ----- the registry: what a pool of `n` timers may do

  /** The free ids, the next to be given first; the armed timers by id; the ids whose handler is running. */
  datatype Registry<H, D> = Registry(free: seq<nat>, live: map<nat, Timer<H, D>>, firing: set<nat>)

  datatype Event<H, D> =
    | Added(id: nat, timer: Timer<H, D>)
    | Refused(handler: Option<H>)
    | Deleted(id: nat)
    | Ignored(id: nat)
    | NotDue(id: nat)
    | Called(id: nat, timer: Timer<H, D>)
    | Returned(id: nat)

  /** A timer gets an id that is not in use; a handler is called with its own data; nothing is let go twice. */
  ghost predicate Legal<H, D>(n: nat, r: Registry<H, D>, e: Event<H, D>) {
    match e
    case Added(id, _) => id < n && id !in r.live && id !in r.firing
    case Refused(h) => h.None? || |r.live.Keys| + |r.firing| == n
    case Deleted(id) => id in r.live
    case Ignored(id) => id !in r.live
    case NotDue(id) => id !in r.live
    case Called(id, t) => id in r.live && r.live[id] == t
    case Returned(id) => id in r.firing
  }

  ghost function After<H, D>(r: Registry<H, D>, e: Event<H, D>): Registry<H, D> {
    match e
    case Added(id, t) => r.(free := if r.free == [] then [] else r.free[1..], live := r.live[id := t])
    case Deleted(id) => r.(free := [id] + r.free, live := r.live - {id})
    case Called(id, _) => r.(live := r.live - {id}, firing := r.firing + {id})
    case Returned(id) => r.(free := [id] + r.free, firing := r.firing - {id})
    case _ => r
  }

  ghost function AfterAll<H, D>(r: Registry<H, D>, log: seq<Event<H, D>>): Registry<H, D>
    decreases log
  {
    if log == [] then r else AfterAll(After(r, log[0]), log[1..])
  }

  ghost predicate LegalRun<H, D>(n: nat, r: Registry<H, D>, log: seq<Event<H, D>>)
    decreases log
  {
    log == [] || (Legal(n, r, log[0]) && LegalRun(n, After(r, log[0]), log[1..]))
  }

  lemma {:induction false} RunsCompose<H, D>(n: nat, r: Registry<H, D>, a: seq<Event<H, D>>, b: seq<Event<H, D>>)
    ensures AfterAll(r, a + b) == AfterAll(AfterAll(r, a), b)
    ensures LegalRun(n, r, a + b) <==> LegalRun(n, r, a) && LegalRun(n, AfterAll(r, a), b)
    decreases a
  {
    if a == [] {
      assert a + b == b;
    } else {
      assert (a + b)[1..] == a[1..] + b;
      RunsCompose(n, After(r, a[0]), a[1..], b);
    }
  }

  lemma RunOfOne<H, D>(n: nat, r: Registry<H, D>, e: Event<H, D>)
    ensures AfterAll(r, [e]) == After(r, e)
    ensures LegalRun(n, r, [e]) <==> Legal(n, r, e)
  {
    assert [e][1..] == [];
    assert LegalRun(n, After(r, e), []);
  }

  lemma RunOfNone<H, D>(n: nat, r: Registry<H, D>)
    ensures LegalRun(n, r, []) && AfterAll(r, []) == r
  {
  }

  /** Events that end what an id stood for, or start it. */
  predicate Settles<H, D>(e: Event<H, D>, id: nat) {
    match e
    case Added(i, _) => i == id
    case Deleted(i) => i == id
    case Called(i, _) => i == id
    case _ => false
  }

  /** No event from the i-th to before the k-th settles the id. */
  ghost predicate Quiet<H, D>(log: seq<Event<H, D>>, i: nat, k: nat, id: nat)
    requires k <= |log|
  {
    forall m :: i <= m < k ==> !Settles(log[m], id)
  }

  /** The j-th event adds the timer that the k-th calls, and nothing settles it in between. */
  ghost predicate AddOf<H, D>(log: seq<Event<H, D>>, j: nat, k: nat) {
    j < k < |log| && log[k].Called? && log[j] == Added(log[k].id, log[k].timer) && Quiet(log, j + 1, k, log[k].id)
  }

  /**
   What acceptance means for one call: it is the first event of its id since the timer was added, and it is made
   with the handler and the data of that very add. A timer is called at most once, and never after it was deleted.
   */
  lemma {:induction false} CallHasItsAdd<H, D>(n: nat, r: Registry<H, D>, log: seq<Event<H, D>>, k: nat)
    requires LegalRun(n, r, log) && k < |log| && log[k].Called?
    ensures var id := log[k].id;
            || (id in r.live && r.live[id] == log[k].timer && Quiet(log, 0, k, id))
            || exists j: nat :: AddOf(log, j, k)
    decreases log
  {
    hide LegalRun, Legal, After;
    FirstIsLegal(n, r, log);
    if k > 0 {
      var id, t := log[k].id, log[k].timer;
      var r', rest := After(r, log[0]), log[1..];
      CallHasItsAdd(n, r', rest, k - 1);
      FirstChanges(n, r, log[0], id);
      var k' := k - 1;
      if j: nat :| AddOf(rest, j, k') {
        QuietLater(log, j + 1, k, id);
        assert AddOf(log, j + 1, k);
      } else {
        QuietLater(log, 0, k, id);
        assert Settles(log[0], id) ==> AddOf(log, 0, k);
        assert !Settles(log[0], id) ==> Quiet(log, 0, k, id);
      }
    }
  }

  lemma QuietLater<H, D>(log: seq<Event<H, D>>, i: nat, k: nat, id: nat)
    requires 0 < k <= |log|
    ensures Quiet(log[1..], i, k - 1, id) ==> Quiet(log, i + 1, k, id)
  {
    assert forall m :: 0 < m < k ==> log[m] == log[1..][m - 1];
  }

  lemma FirstIsLegal<H, D>(n: nat, r: Registry<H, D>, log: seq<Event<H, D>>)
    requires LegalRun(n, r, log) && log != []
    ensures Legal(n, r, log[0]) && LegalRun(n, After(r, log[0]), log[1..])
    ensures log[0].Called? ==> log[0].id in r.live && r.live[log[0].id] == log[0].timer
  {
  }

  /** What is armed after an event was armed before, unless the event is its add. */
  lemma FirstChanges<H, D>(n: nat, r: Registry<H, D>, e: Event<H, D>, id: nat)
    requires Legal(n, r, e)
    ensures var w := After(r, e);
            id in w.live ==>
              if Settles(e, id) then e == Added(id, w.live[id]) else id in r.live && r.live[id] == w.live[id]
  {
  }

  // ----- scripts

  /** What callers do, and what handlers do while they run. `Expire` is the event loop's part. */
  datatype Action<H, D> =
    | Add(handler: Option<H>, data: D)
    | Del(id: nat)
    | Expire(id: nat, during: seq<Action<H, D>>)

  /** Ids are array indices: the pool takes callers at their word. */
  ghost predicate InRange<H, D>(n: nat, action: Action<H, D>)
  {
    match action
    case Add(_, _) => true
    case Del(id) => id < n
    case Expire(id, during) => id < n && forall a :: a in during ==> InRange(n, a)
  }

  /** What an action comes to; a handler's own actions stand between its call and its return. */
  ghost function LogOf<H, D>(r: Registry<H, D>, a: Action<H, D>): seq<Event<H, D>>
    decreases a
  {
    match a
    case Add(h, d) => if h.None? || r.free == [] then [Refused(h)] else [Added(r.free[0], Timer(h.value, d))]
    case Del(id) => [if id in r.live then Deleted(id) else Ignored(id)]
    case Expire(id, during) =>
      if id !in r.live then [NotDue(id)]
      else
        var call := Called(id, r.live[id]);
        [call] + LogOfAll(After(r, call), during) + [Returned(id)]
  }

  ghost function LogOfAll<H, D>(r: Registry<H, D>, script: seq<Action<H, D>>): seq<Event<H, D>>
    decreases script
  {
    if script == [] then []
    else
      var first := LogOf(r, script[0]);
      first + LogOfAll(AfterAll(r, first), script[1..])
  }

  lemma {:induction false} LogOfMore<H, D>(n: nat, r: Registry<H, D>, script: seq<Action<H, D>>,
                                           more: seq<Action<H, D>>)
    ensures var log := LogOfAll(r, script);
            LogOfAll(r, script + more) == log + LogOfAll(AfterAll(r, log), more)
    decreases script
  {
    hide LogOf, AfterAll;
    if script == [] {
      assert script + more == more;
      RunOfNone(n, r);
    } else {
      var first := LogOf(r, script[0]);
      var log := LogOfAll(AfterAll(r, first), script[1..]);
      assert (script + more)[1..] == script[1..] + more;
      LogOfMore(n, AfterAll(r, first), script[1..], more);
      RunsCompose(n, r, first, log);
    }
  }

  lemma LogOfOne<H, D>(r: Registry<H, D>, a: Action<H, D>)
    ensures LogOfAll(r, [a]) == LogOf(r, a)
  {
    hide LogOf, AfterAll;
    assert [a][1..] == [];
    assert LogOfAll(AfterAll(r, LogOf(r, a)), []) == [];
  }

  /** A timer that was added and not settled since is armed, with its own handler and data. */
  lemma {:induction false} StaysArmed<H, D>(r: Registry<H, D>, log: seq<Event<H, D>>, j: nat, id: nat, t: Timer<H, D>)
    requires j < |log| && log[j] == Added(id, t) && forall m :: j < m < |log| ==> !Settles(log[m], id)
    ensures var w := AfterAll(r, log); id in w.live && w.live[id] == t
    decreases log
  {
    if j > 0 {
      StaysArmed(After(r, log[0]), log[1..], j - 1, id, t);
    } else {
      KeepsArmed(After(r, log[0]), log[1..], id);
    }
  }

  lemma {:induction false} KeepsArmed<H, D>(r: Registry<H, D>, log: seq<Event<H, D>>, id: nat)
    requires id in r.live && forall m :: 0 <= m < |log| ==> !Settles(log[m], id)
    ensures var w := AfterAll(r, log); id in w.live && w.live[id] == r.live[id]
    decreases log
  {
    if log != [] {
      assert !Settles(log[0], id);
      forall m | 0 <= m < |log[1..]| ensures !Settles(log[1..][m], id) {
        assert !Settles(log[m + 1], id);
      }
      KeepsArmed(After(r, log[0]), log[1..], id);
    }
  }

  /** Of two calls of one id the second has an add of its own between them: one add, one call at most. */
  lemma CalledOncePerAdd<H, D>(n: nat, r: Registry<H, D>, log: seq<Event<H, D>>, k1: nat, k2: nat)
    requires LegalRun(n, r, log) && k1 < k2 < |log| && log[k1].Called? && log[k2].Called? && log[k1].id == log[k2].id
    ensures exists j :: k1 < j < k2 && log[j] == Added(log[k2].id, log[k2].timer)
  {
    hide LegalRun;
    CallHasItsAdd(n, r, log, k2);
    assert Settles(log[k1], log[k2].id);
  }

  // ----- an action anywhere in a script

  /**
   A path names an action: an index into the script, then one into what the handler called there does, and so on.
   It is reached if every timer on the way is due, so that its handler is called.
   */
  ghost predicate Reached<H, D>(r: Registry<H, D>, script: seq<Action<H, D>>, path: seq<nat>)
    decreases path
  {
    && path != [] && path[0] < |script|
    && (|path| > 1 ==>
          var a, w := script[path[0]], AfterAll(r, LogOfAll(r, script[..path[0]]));
          a.Expire? && a.id in w.live && Reached(After(w, Called(a.id, w.live[a.id])), a.during, path[1..]))
  }

  ghost function ActionAt<H, D>(r: Registry<H, D>, script: seq<Action<H, D>>, path: seq<nat>): Action<H, D>
    requires Reached(r, script, path)
    decreases path
  {
    var a, w := script[path[0]], AfterAll(r, LogOfAll(r, script[..path[0]]));
    if |path| == 1 then a else ActionAt(After(w, Called(a.id, w.live[a.id])), a.during, path[1..])
  }

  /** The events before the action at the path. */
  ghost function LogBefore<H, D>(r: Registry<H, D>, script: seq<Action<H, D>>, path: seq<nat>): seq<Event<H, D>>
    requires Reached(r, script, path)
    decreases path
  {
    var before := LogOfAll(r, script[..path[0]]);
    if |path| == 1 then before
    else
      var a, w := script[path[0]], AfterAll(r, before);
      var call := Called(a.id, w.live[a.id]);
      before + [call] + LogBefore(After(w, call), a.during, path[1..])
  }

  lemma ActionInScript<H, D>(n: nat, r: Registry<H, D>, script: seq<Action<H, D>>, i: nat)
    requires i < |script|
    ensures var before := LogOfAll(r, script[..i]);
            before + LogOf(AfterAll(r, before), script[i]) <= LogOfAll(r, script)
  {
    hide LogOf, LogOfAll, AfterAll;
    var w := AfterAll(r, LogOfAll(r, script[..i]));
    assert script == script[..i] + ([script[i]] + script[i + 1..]);
    LogOfMore(n, r, script[..i], [script[i]] + script[i + 1..]);
    LogOfMore(n, w, [script[i]], script[i + 1..]);
    LogOfOne(w, script[i]);
  }

  /** What the action at the path comes to stands in the log of the script, behind the events before it. */
  lemma {:induction false} ActionInLog<H, D>(n: nat, r: Registry<H, D>, script: seq<Action<H, D>>, path: seq<nat>)
    requires Reached(r, script, path)
    ensures var before := LogBefore(r, script, path);
            before + LogOf(AfterAll(r, before), ActionAt(r, script, path)) <= LogOfAll(r, script)
    decreases path
  {
    hide LogOf, LogOfAll, AfterAll, After, LogBefore, ActionAt, Reached;
    PathIs(r, script, path);
    ActionInScript(n, r, script, path[0]);
    if |path| > 1 {
      var before := LogOfAll(r, script[..path[0]]);
      var a, w := script[path[0]], AfterAll(r, before);
      var call := Called(a.id, w.live[a.id]);
      ActionInLog(n, After(w, call), a.during, path[1..]);
      CallsInside(w, a);
      StepInside(n, r, before, a, call, LogBefore(After(w, call), a.during, path[1..]),
                 ActionAt(After(w, call), a.during, path[1..]), LogOfAll(After(w, call), a.during),
                 LogOfAll(r, script));
    }
  }

  lemma PathIs<H, D>(r: Registry<H, D>, script: seq<Action<H, D>>, path: seq<nat>)
    requires Reached(r, script, path)
    ensures path != [] && path[0] < |script|
    ensures var before := LogOfAll(r, script[..path[0]]);
            var a, w := script[path[0]], AfterAll(r, before);
            if |path| == 1 then LogBefore(r, script, path) == before && ActionAt(r, script, path) == a
            else
              && a.Expire? && a.id in w.live
              && var call := Called(a.id, w.live[a.id]);
                 && Reached(After(w, call), a.during, path[1..])
                 && LogBefore(r, script, path) == before + [call] + LogBefore(After(w, call), a.during, path[1..])
                 && ActionAt(r, script, path) == ActionAt(After(w, call), a.during, path[1..])
  {
    hide LogOfAll, AfterAll, After;
  }

  lemma CallsInside<H, D>(w: Registry<H, D>, a: Action<H, D>)
    requires a.Expire? && a.id in w.live
    ensures var call := Called(a.id, w.live[a.id]);
            LogOf(w, a) == [call] + LogOfAll(After(w, call), a.during) + [Returned(a.id)]
  {
    hide LogOfAll, After;
  }

  /** `some` comes first in what the handler of `a` does, and `action` behind it. */
  lemma StepInside<H, D>(n: nat, r: Registry<H, D>, before: seq<Event<H, D>>, a: Action<H, D>, call: Event<H, D>,
                         some: seq<Event<H, D>>, action: Action<H, D>, body: seq<Event<H, D>>, log: seq<Event<H, D>>)
    requires a.Expire?
    requires var w := AfterAll(r, before);
             && LogOf(w, a) == [call] + body + [Returned(a.id)] && before + LogOf(w, a) <= log
             && some + LogOf(AfterAll(After(w, call), some), action) <= body
    ensures var b := before + [call] + some; b + LogOf(AfterAll(r, b), action) <= log
  {
    hide LogOf, AfterAll, After;
    var w, b := AfterAll(r, before), before + [call] + some;
    RunOfOne(n, w, call);
    RunsCompose(n, w, [call], some);
    RunsCompose(n, r, before, [call] + some);
    assert before + ([call] + some) == b;
    Within(before, call, some, LogOf(AfterAll(r, b), action), body, Returned(a.id), log);
  }

  lemma Within<E>(before: seq<E>, call: E, some: seq<E>, more: seq<E>, body: seq<E>, end: E, log: seq<E>)
    requires some + more <= body && before + ([call] + body + [end]) <= log
    ensures before + [call] + some + more <= log
  {
    var rest := body[|some + more|..];
    assert body == some + more + rest;
    assert before + ([call] + body + [end]) == before + [call] + some + more + (rest + [end]);
  }

  /**
   And one add, one call at least, if the timer expires: an action anywhere in a script, a handler's own included,
   finds `id` due, and `id` was added by the j-th event before it and not deleted or called since. Then that action
   begins with the call of the handler with the data given at that add, the handler's own actions follow, and its
   return ends it.
   */
  lemma ExpiryCallsItsAdd<H, D>(n: nat, r: Registry<H, D>, script: seq<Action<H, D>>, path: seq<nat>, j: nat,
                                t: Timer<H, D>)
    requires Reached(r, script, path) && ActionAt(r, script, path).Expire?
    requires var id, before := ActionAt(r, script, path).id, LogBefore(r, script, path);
             && j < |before| && before[j] == Added(id, t)
             && forall m :: j < m < |before| ==> !Settles(before[m], id)
    ensures var a, before := ActionAt(r, script, path), LogBefore(r, script, path);
            var inner := LogOfAll(After(AfterAll(r, before), Called(a.id, t)), a.during);
            before + [Called(a.id, t)] + inner + [Returned(a.id)] <= LogOfAll(r, script)
  {
    var a, before := ActionAt(r, script, path), LogBefore(r, script, path);
    hide LogOfAll, AfterAll, LogBefore, ActionAt, Reached;
    var w := AfterAll(r, before);
    StaysArmed(r, before, j, a.id, t);
    ActionInLog(n, r, script, path);
    var inner := LogOfAll(After(w, Called(a.id, t)), a.during);
    assert LogOf(w, a) == [Called(a.id, t)] + inner + [Returned(a.id)];
    hide LogOf;
    assert before + ([Called(a.id, t)] + inner + [Returned(a.id)])
        == before + [Called(a.id, t)] + inner + [Returned(a.id)];
  }

  // ----- the pool

  datatype Slot<+H, +D> = Slot(timerid: nat, timerSet: bool, handler: Option<H>, data: Data<D>)

  ghost function Datas<H, D>(slots: seq<Slot<H, D>>): (cells: seq<Data<D>>)
    ensures |cells| == |slots| && forall i :: 0 <= i < |slots| ==> cells[i] == slots[i].data
  {
    Cells(slots, (s: Slot<H, D>) => s.data)
  }

  class Timers<H(!new), D(!new)> {
    var timerN: nat
    var slots: array<Slot<H, D>>
    var freeTimers: Data<D>
    var freeTimerN: nat

    ghost var free: seq<nat>
    ghost var live: map<nat, Timer<H, D>>
    /** Neither free nor armed: the slots of running handlers. */
    ghost var taken: set<nat>

    ghost function State(): Registry<H, D>
      reads this
    {
      Registry(free, live, taken)
    }

    ghost predicate Valid()
      reads this, slots
    {
      && slots.Length == timerN && freeTimerN == |free|
      && Threaded(Datas(slots[..]), free, freeTimers)
      && Partition(timerN, free, live.Keys, taken)
      && Slotted(slots[..], live)
    }

    /** Only armed timers are set, and each holds what its caller gave. */
    ghost static predicate Slotted(slots: seq<Slot<H, D>>, live: map<nat, Timer<H, D>>) {
      && (forall i :: 0 <= i < |slots| ==> slots[i].timerid == i && (slots[i].timerSet <==> i in live))
      && (forall i :: 0 <= i < |slots| && i in live ==>
            slots[i].handler == Some(live[i].handler) && slots[i].data == User(live[i].data))
    }

    /** Free slots, armed timers and running handlers make up the pool. */
    lemma Conserved()
      requires Valid()
      ensures freeTimerN + |live.Keys| + |taken| == timerN
    {
      Counts(timerN, free, live.Keys, taken);
    }

    /** create_conf and init_conf: no slots yet. */
    constructor (timerN: nat)
      ensures this.timerN == timerN && slots.Length == 0 && freeTimerN == 0 && freeTimers == Null
      ensures fresh(slots) && State() == Registry([], map[], {})
      ensures timerN == 0 ==> Valid()
    {
      this.timerN := timerN;
      slots := new Slot<H, D>[0];
      freeTimers, freeTimerN := Null, 0;
      free, live, taken := [], map[], {};
    }

    /** process_init; `memory` says whether there was room for the array. Slot 0 becomes the head of the free list. */
    method ProcessInit(memory: bool) returns (ok: bool)
      requires slots.Length == 0 && freeTimerN == 0 && freeTimers == Null && State() == Registry([], map[], {})
      modifies this`slots, this`freeTimers, this`freeTimerN, this`free
      ensures ok <==> timerN == 0 || memory
      ensures ok ==> Valid() && State() == Registry(seq(timerN, i => i), map[], {})
      ensures timerN > 0 && ok ==> fresh(slots)
    {
      hide Threaded;
      if timerN == 0 {
        free := [];
        ThreadedNone(Datas(slots[..]));
        return true;
      }
      if !memory {
        return false;
      }
      var t := new Slot<H, D>[timerN](_ => Slot(0, false, None, Null));
      var i := timerN;
      var next: Data<D> := Null;
      ghost var list: seq<nat> := [];
      ThreadedNone(Datas(t[..]));
      while i > 0
        invariant 0 <= i <= timerN && t.Length == timerN
        invariant |list| == timerN - i && forall k :: 0 <= k < |list| ==> list[k] == i + k
        invariant Threaded(Datas(t[..]), list, next)
        invariant forall k :: i <= k < timerN ==> t[k].timerid == k && !t[k].timerSet
      {
        i := i - 1;
        ghost var was := t[..];
        t[i] := Slot(i, false, None, next);
        ThreadedPush(Datas(was), Datas(t[..]), list, next, i);
        next := Next(i);
        list := [i] + list;
      }
      slots, freeTimers, freeTimerN, free := t, next, timerN, list;
      forall x ensures x in list <==> 0 <= x < timerN {
        assert 0 <= x < timerN ==> list[x] == x;
      }
      return true;
    }

    /** get_timer */
    method GetTimer() returns (r: Option<nat>)
      requires Valid()
      modifies this`freeTimers, this`freeTimerN, this`free, this`taken
      ensures Valid()
      ensures r.None? <==> old(freeTimerN) == 0
      ensures r.None? ==> taken == old(taken)
      ensures r.None? ==> free == old(free) == []
      ensures r.Some? ==> old(free) == [r.value] + free && taken == old(taken) + {r.value} && r.value < timerN
    {
      hide Threaded;
      var head := freeTimers;
      if freeTimerN == 0 {
        return None;
      }
      ThreadedPop(Datas(slots[..]), free, freeTimers);
      freeTimers := slots[head.slot].data;
      freeTimerN := freeTimerN - 1;
      taken := taken + {head.slot};
      free := free[1..];
      return Some(head.slot);
    }

    /** free_timer */
    method FreeTimer(id: nat)
      requires Valid() && id in taken
      modifies this`freeTimers, this`freeTimerN, this`free, this`taken, slots
      ensures Valid() && taken == old(taken) - {id} && free == [id] + old(free)
    {
      hide Threaded;
      ghost var was := slots[..];
      slots[id] := slots[id].(data := freeTimers);
      ThreadedPush(Datas(was), Datas(slots[..]), free, freeTimers, id);
      freeTimers := Next(id);
      freeTimerN := freeTimerN + 1;
      free := [id] + free;
      taken := taken - {id};
    }

    /** add_timer: the id, or -1. */
    method AddTimer(h: Option<H>, data: D) returns (r: int, e: Event<H, D>)
      requires Valid()
      modifies this`freeTimers, this`freeTimerN, this`free, this`live, this`taken, slots
      ensures Valid()
      ensures r == -1 <==> h.None? || old(freeTimerN) == 0
      ensures r != -1 ==> 0 <= r < timerN && e == Added(r, Timer(h.value, data))
      ensures r == -1 ==> e == Refused(h)
      ensures [e] == LogOf(old(State()), Add(h, data))
      ensures Legal(timerN, old(State()), e) && State() == After(old(State()), e)
    {
      hide Threaded;
      Conserved();
      if h.None? {
        return -1, Refused(h);
      }
      var slot := GetTimer();
      if slot.None? {
        return -1, Refused(h);
      }
      var id := slot.value;
      Arm(id, h.value, data);
      return id, Added(id, Timer(h.value, data));
    }

    /** The slot is filled in and its event goes to the event loop. */
    method Arm(id: nat, h: H, data: D)
      requires Valid() && id in taken
      modifies this`live, this`taken, slots
      ensures Valid() && live == old(live)[id := Timer(h, data)] && taken == old(taken) - {id}
    {
      hide Threaded;
      ghost var was := slots[..];
      slots[id] := slots[id].(timerSet := true, handler := Some(h), data := User(data));
      ThreadedKept(Datas(was), Datas(slots[..]), free, freeTimers);
      live := live[id := Timer(h, data)];
      taken := taken - {id};
    }

    /** del_timer: an id whose timer is not set is let pass, be it free or running. */
    method DelTimer(id: nat) returns (e: Event<H, D>)
      requires Valid() && id < timerN
      modifies this`freeTimers, this`freeTimerN, this`free, this`live, this`taken, slots
      ensures Valid()
      ensures [e] == LogOf(old(State()), Del(id))
      ensures Legal(timerN, old(State()), e) && State() == After(old(State()), e)
    {
      hide Threaded;
      if !slots[id].timerSet {
        return Ignored(id);
      }
      Unset(id);
      FreeTimer(id);
      return Deleted(id);
    }

    /** The event leaves the event loop's tree: deleted, or because it is due. */
    method Unset(id: nat)
      requires Valid() && id in live
      modifies this`live, this`taken, slots
      ensures Valid() && live == old(live) - {id} && taken == old(taken) + {id}
      ensures slots[id].handler == Some(old(live)[id].handler) && slots[id].data == User(old(live)[id].data)
    {
      hide Threaded;
      ghost var was := slots[..];
      slots[id] := slots[id].(timerSet := false);
      ThreadedKept(Datas(was), Datas(slots[..]), free, freeTimers);
      live := live - {id};
      taken := taken + {id};
    }

    /** What the handler of a due timer is called with. */
    method Due(id: nat) returns (timer: Option<Timer<H, D>>)
      requires Valid() && id < timerN
      modifies this`live, this`taken, slots
      ensures Valid()
      ensures timer == if id in old(live) then Some(old(live)[id]) else None
      ensures id in old(live) ==> id !in old(taken)
      ensures live == old(live) - {id} && taken == if id in old(live) then old(taken) + {id} else old(taken)
    {
      hide Threaded;
      if !slots[id].timerSet {
        return None;
      }
      Unset(id);
      return Some(Timer(slots[id].handler.value, slots[id].data.data));
    }

    /**
     The event loop finds `id` due and calls event_handler, which calls the timer's handler; `during` is what
     that handler does. The slot is free again only when the handler has returned.
     */
    method EventHandler(id: nat, during: seq<Action<H, D>>) returns (log: seq<Event<H, D>>)
      requires Valid() && id < timerN && forall a :: a in during ==> InRange(timerN, a)
      modifies this`freeTimers, this`freeTimerN, this`free, this`live, this`taken, slots
      ensures Valid() && taken == old(taken)
      ensures log == LogOf(old(State()), Expire(id, during))
      ensures LegalRun(timerN, old(State()), log) && State() == AfterAll(old(State()), log)
      decreases during, 1
    {
      hide Threaded, LegalRun, AfterAll, Valid;
      ghost var start := State();
      var timer := Due(id);
      if timer.None? {
        RunOfOne(timerN, start, NotDue(id));
        return [NotDue(id)];
      }
      var call := Called(id, timer.value);
      RunOfOne(timerN, start, call);
      var inner := Run(during);
      RunsCompose(timerN, start, [call], inner);
      RunOfOne(timerN, State(), Returned(id));
      RunsCompose(timerN, start, [call] + inner, [Returned(id)]);
      FreeTimer(id);
      return [call] + inner + [Returned(id)];
    }

    method Perform(action: Action<H, D>) returns (log: seq<Event<H, D>>)
      requires Valid() && InRange(timerN, action)
      modifies this`freeTimers, this`freeTimerN, this`free, this`live, this`taken, slots
      ensures Valid() && taken == old(taken)
      ensures log == LogOf(old(State()), action)
      ensures LegalRun(timerN, old(State()), log) && State() == AfterAll(old(State()), log)
      decreases action, 0
    {
      hide Threaded, LegalRun, AfterAll, Valid;
      ghost var start := State();
      match action
      case Add(h, data) =>
        var r, e := AddTimer(h, data);
        RunOfOne(timerN, start, e);
        log := [e];
      case Del(id) =>
        var e := DelTimer(id);
        RunOfOne(timerN, start, e);
        log := [e];
      case Expire(id, during) =>
        log := EventHandler(id, during);
    }

    /**
     Any run of the pool, with handlers at any depth that add, delete and see other timers expire: the registry
     accepts all that was done, and is where the pool is.
     */
    method Run(script: seq<Action<H, D>>) returns (log: seq<Event<H, D>>)
      requires Valid() && forall a :: a in script ==> InRange(timerN, a)
      modifies this`freeTimers, this`freeTimerN, this`free, this`live, this`taken, slots
      ensures Valid() && taken == old(taken)
      ensures log == LogOfAll(old(State()), script)
      ensures LegalRun(timerN, old(State()), log) && State() == AfterAll(old(State()), log)
      decreases script, 0
    {
      hide Threaded, LegalRun, AfterAll, Valid, LogOf;
      ghost var start := State();
      log := [];
      RunOfNone(timerN, start);
      assert LogOfAll(start, []) == [];
      for i := 0 to |script|
        invariant Valid() && taken == old(taken)
        invariant log == LogOfAll(start, script[..i])
        invariant LegalRun(timerN, start, log) && State() == AfterAll(start, log)
      {
        var more := Perform(script[i]);
        RunsCompose(timerN, start, log, more);
        LogOfOne(AfterAll(start, log), script[i]);
        LogOfMore(timerN, start, script[..i], [script[i]]);
        assert script[..i + 1] == script[..i] + [script[i]];
        log := log + more;
      }
      assert script[..|script|] == script;
    }
  }
}