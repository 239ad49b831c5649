/**
 What the resolver keeps of its promises, over all runs and whatever the callbacks do: every callback is called once.
 It is called by the first result or deletion that came for its record since it was asked for exactly if no other
 came before the call: with none a drain in progress took it along, of several the last to begin reaches it.
 The loop over the addresses goes wrong exactly if its record was let again or answered again under it. A result
 reaches another domain than the one that asked exactly if the record was let to another one meanwhile that still
 has it. For each failure there is a script.
 */
module ResolverTheorems {
  import opened Bytes
  import opened ResolverSpec

  // ----- every callback is called once

  /** How often a callback is among those who wait. */
  ghost function Count<F>(waiting: seq<Wait<F>>, c: F): nat
    decreases waiting
  {
    if waiting == [] then 0 else (if waiting[0].callback == c then 1 else 0) + Count(waiting[1..], c)
  }

  /** How often it waits at all. */
  ghost function Waits<A, F>(records: seq<Record<A, F>>, c: F): nat
    decreases records
  {
    if records == [] then 0 else Count(records[0].waiting, c) + Waits(records[1..], c)
  }

  ghost function Called<A, F>(calls: seq<Call<A, F>>, c: F): nat
    decreases calls
  {
    if calls == [] then 0 else (if calls[0].callback == c then 1 else 0) + Called(calls[1..], c)
  }

  /** Whether a step asks for a call: nothing is promised for an empty name. */
  ghost function Asks<A, F>(v: View<A, F>, a: Act<A, F>, c: F): nat {
    if Enabled(v, a) && a.Start? && a.name != [] && a.callback == c then 1 else 0
  }

  lemma {:induction false} WaitsUpdate<A, F>(records: seq<Record<A, F>>, r: nat, now: Record<A, F>, c: F)
    requires r < |records|
    ensures Waits(records[r := now], c) + Count(records[r].waiting, c) == Waits(records, c) + Count(now.waiting, c)
    decreases records
  {
    var s := records[r := now];
    if r == 0 {
      assert s[1..] == records[1..];
    } else {
      assert s[1..] == records[1..][r - 1 := now];
      WaitsUpdate(records[1..], r - 1, now, c);
    }
  }

  lemma {:induction false} WaitsAppend<A, F>(records: seq<Record<A, F>>, now: Record<A, F>, c: F)
    ensures Waits(records + [now], c) == Waits(records, c) + Count(now.waiting, c)
    decreases records
  {
    if records == [] {
      assert records + [now] == [now] && [now][1..] == [];
    } else {
      assert (records + [now])[1..] == records[1..] + [now];
      WaitsAppend(records[1..], now, c);
    }
  }

  lemma CalledFew<A, F>(callback: F, answer: Answer<A>, c: F)
    ensures Called<A, F>([], c) == 0 && Called([Call(callback, answer)], c) == if callback == c then 1 else 0
  {
    assert [Call(callback, answer)][1..] == [];
    assert Called<A, F>([], c) == 0;
  }

  lemma {:induction false} CalledBoth<A, F>(a: seq<Call<A, F>>, b: seq<Call<A, F>>, c: F)
    ensures Called(a + b, c) == Called(a, c) + Called(b, c)
    decreases a
  {
    if a == [] {
      assert a + b == b;
    } else {
      assert (a + b)[1..] == a[1..] + b;
      CalledBoth(a[1..], b, c);
    }
  }

  lemma OneMoreWaits<F>(w: Wait<F>, waiting: seq<Wait<F>>, c: F)
    ensures Count([w] + waiting, c) == Count(waiting, c) + if w.callback == c then 1 else 0
    ensures Count<F>([], c) == 0
  {
    assert ([w] + waiting)[1..] == waiting;
  }

  lemma OneLessWaits<F>(waiting: seq<Wait<F>>, c: F)
    requires waiting != []
    ensures Count(waiting, c) == Count(waiting[1..], c) + if waiting[0].callback == c then 1 else 0
  {
  }

  lemma AddKeepsWaiters<A, F>(cfg: Config<A>, v: View<A, F>, name: Str, room: bool, c: F)
    requires Sane(v)
    ensures Waits(AddStep(cfg, v, name, room).records, c) == Waits(v.records, c)
  {
    hide Sane, Waits, Count;
    InPlace(v);
    assert Count<F>([], c) == 0 by {
      NobodyWaits(c);
    }
    if v.free != [] {
      var r := v.free[0];
      WaitsUpdate(v.records, r, Cleared(v.clock, v.records[r].setAt, v.records[r].drainAt), c);
    } else {
      WaitsAppend(v.records, Cleared(v.clock, 0, 0), c);
    }
  }

  lemma NobodyWaits<F>(c: F)
    ensures Count<F>([], c) == 0
  {
  }

  lemma StartConserves<A, F>(cfg: Config<A>, v: View<A, F>, a: Act<A, F>, c: F)
    requires Sane(v) && Enabled(v, a) && a.Start?
    ensures var (w, calls) := StartStep(cfg, v, a.name, a.callback, a.room, a.roomCtx, a.pick);
            Asks(v, a, c) + Waits(v.records, c) == Called(calls, c) + Waits(w.records, c)
  {
    hide Sane, AddStep, Waits, Count, Called, LowerAll;
    var w := AddStep(cfg, v, a.name, a.room);
    var key := LowerAll(a.name);
    AddKeepsWaiters(cfg, v, a.name, a.room, c);
    CalledFew<A, F>(a.callback, Nothing, c);
    CalledFew<A, F>(a.callback, Own(cfg.isAddress(a.name)), c);
    if key in w.index && w.index[key] < |w.records| {
      var r := w.index[key];
      var rec := w.records[r];
      if 0 < rec.naddrs <= |rec.addrs| {
        CalledFew<A, F>(a.callback, Own(rec.addrs[a.pick % rec.naddrs]), c);
      }
      var waiting := Wait(a.callback, w.clock, BeingDrained(w, r));
      WaitsUpdate(w.records, r, rec.(waiting := [waiting] + rec.waiting), c);
      OneMoreWaits(waiting, rec.waiting, c);
    }
  }

  lemma LoopConserves<A, F>(v: View<A, F>, pick: nat, c: F)
    requires Looping(v)
    ensures var (w, calls) := LoopStep(v, pick); Waits(v.records, c) == Called(calls, c) + Waits(w.records, c)
  {
    hide Waits, Count, Called;
    var r := Top(v).record;
    var rec := v.records[r];
    CalledFew<A, F>(if rec.waiting != [] then rec.waiting[0].callback else c, Told(v), c);
    if rec.waiting != [] {
      OneLessWaits(rec.waiting, c);
      WaitsUpdate(v.records, r, rec.(waiting := rec.waiting[1..]), c);
    } else {
      match Top(v).why
      case Answers(given, i, _) =>
        if i + 1 < |given| && i + 1 < |rec.addrs| {
          WaitsUpdate(v.records, r, rec.(addrs := rec.addrs[i + 1 := Some(given[i + 1])]), c);
        }
      case _ =>
    }
  }

  lemma DrainKeepsWaiters<A, F>(v: View<A, F>, r: nat, why: Why<A>, c: F)
    requires r < |v.records|
    ensures Waits(Drain(v, r, why).records, c) == Waits(v.records, c)
  {
    WaitsUpdate(v.records, r, v.records[r].(drainAt := v.clock), c);
    hide Waits, Count;
  }

  lemma ResultConserves<A, F>(v: View<A, F>, query: nat, addrs: seq<A>, pick: nat, c: F)
    ensures Waits(ResultStep(v, query, addrs, pick).records, c) == Waits(v.records, c)
  {
    hide Waits, Count, Drain;
    if query in v.queries && v.queries[query].record < |v.records| {
      var r := v.queries[query].record;
      var w := v.(queries := v.queries - {query});
      if addrs == [] {
        DrainKeepsWaiters(w, r, Failure, c);
      } else {
        var n := Min(|addrs|, MAX_ADDRS);
        var rec := w.records[r];
        var copied := if rec.addrs == [] then [] else rec.addrs[0 := Some(addrs[0])];
        var now := rec.(naddrs := n, addrs := copied, setAt := v.clock);
        WaitsUpdate(w.records, r, now, c);
        DrainKeepsWaiters(WithRecord(w, r, now), r, Answers(addrs, 0, pick % n), c);
      }
    }
  }

  /** In one step: who asks is called at once or waits, who waits is called or waits on. */
  lemma StepConserves<A, F>(cfg: Config<A>, v: View<A, F>, a: Act<A, F>, c: F)
    requires Sane(v)
    ensures var (w, calls) := Step(cfg, v, a);
            Asks(v, a, c) + Waits(v.records, c) == Called(calls, c) + Waits(w.records, c)
  {
    hide Sane, Waits, Called, Drain, Opened, LowerAll, ReturnStep, LoopStep, StartStep, ResultStep, AddStep;
    NoCalls<A, F>(c);
    if Enabled(v, a) {
      match a
      case Add(name, room) => AddKeepsWaiters(cfg, v, name, room, c);
      case Del(name) =>
        var key := LowerAll(name);
        if key in v.index && v.index[key] < |v.records| {
          DrainKeepsWaiters(v.(index := v.index - {key}), v.index[key], Deletion, c);
        }
      case Start(_, _, _, _, _) => StartConserves(cfg, v, a, c);
      case Ask(_) =>
      case Result(query, addrs, pick) => ResultConserves(v, query, addrs, pick, c);
      case Loop(pick) => LoopConserves(v, pick, c);
      case Return => ReturnKeepsRecords(v);
    }
  }

  lemma NoCalls<A, F>(c: F)
    ensures Called<A, F>([], c) == 0
  {
  }

  lemma ReturnKeepsRecords<A, F>(v: View<A, F>)
    requires InCallback(v)
    ensures var w := ReturnStep(v); w.records == v.records && w.queries == v.queries && w.nextQuery == v.nextQuery
  {
  }

  // ----- runs

  ghost function RunOf<A, F>(cfg: Config<A>, v: View<A, F>, acts: seq<Act<A, F>>): (View<A, F>, seq<Call<A, F>>)
    decreases acts
  {
    if acts == [] then (v, [])
    else
      var (w, calls) := Step(cfg, v, acts[0]);
      var (u, more) := RunOf(cfg, w, acts[1..]);
      (u, calls + more)
  }

  ghost function AsksIn<A, F>(cfg: Config<A>, v: View<A, F>, acts: seq<Act<A, F>>, c: F): nat
    decreases acts
  {
    if acts == [] then 0 else Asks(v, acts[0], c) + AsksIn(cfg, Step(cfg, v, acts[0]).0, acts[1..], c)
  }

  /** Over every run, whatever callbacks do and results come: as often as asked, called or still waiting. */
  lemma {:induction false} RunConserves<A, F>(cfg: Config<A>, v: View<A, F>, acts: seq<Act<A, F>>, c: F)
    requires Sane(v)
    ensures var (w, calls) := RunOf(cfg, v, acts);
            Sane(w) && AsksIn(cfg, v, acts, c) + Waits(v.records, c) == Called(calls, c) + Waits(w.records, c)
    decreases acts
  {
    hide Step, Sane, Waits, Called, Asks;
    if acts == [] {
      NoCalls<A, F>(c);
    } else {
      StepIsSane(cfg, v, acts[0]);
      StepConserves(cfg, v, acts[0], c);
      var (w, calls) := Step(cfg, v, acts[0]);
      RunConserves(cfg, w, acts[1..], c);
      var (u, more) := RunOf(cfg, w, acts[1..]);
      CalledBoth(calls, more, c);
    }
  }

  // ----- what a step does to one record

  /** A step that lets the record to another domain. */
  ghost predicate Lets<A, F>(cfg: Config<A>, v: View<A, F>, a: Act<A, F>, r: nat) {
    && Enabled(v, a) && (a.Add? || a.Start?) && Takes(cfg, a.name) && LowerAll(a.name) !in v.index
    && v.free != [] && v.free[0] == r
  }

  lemma AddToRecord<A, F>(cfg: Config<A>, v: View<A, F>, a: Act<A, F>, r: nat)
    requires Sane(v) && Enabled(v, a) && (a.Add? || a.Start?) && r < |v.records|
    ensures var w := AddStep(cfg, v, a.name, a.room);
            && |v.records| <= |w.records| && w.queries == v.queries && w.nextQuery == v.nextQuery && w.clock == v.clock
            && (if Lets(cfg, v, a, r) then v.records[r].waiting == [] && w.records[r].waiting == []
                && w.records[r].letAt == v.clock
                else w.records[r] == v.records[r])
  {
    hide LowerAll, Sane;
    InPlace(v);
  }

  /** What of a record only letting and waiting change. */
  lemma StartToRecord<A, F>(cfg: Config<A>, v: View<A, F>, a: Act<A, F>, r: nat)
    requires Sane(v) && Enabled(v, a) && a.Start? && r < |v.records|
    ensures var w := AddStep(cfg, v, a.name, a.room);
            var u := StartStep(cfg, v, a.name, a.callback, a.room, a.roomCtx, a.pick).0;
            && r < |w.records| == |u.records| && u.records[r].letAt == w.records[r].letAt
            && (var was, now := w.records[r].waiting, u.records[r].waiting;
                now == was || (now != [] && now[1..] == was && now[0].callback == a.callback))
  {
    AddToRecord(cfg, v, a, r);
    assert !Takes(cfg, a.name) ==> AddStep(cfg, v, a.name, a.room) == v;
    hide LowerAll, Sane, AddStep;
  }

  lemma StartToQueries<A, F>(cfg: Config<A>, v: View<A, F>, a: Act<A, F>)
    requires a.Start?
    ensures var u := StartStep(cfg, v, a.name, a.callback, a.room, a.roomCtx, a.pick).0;
            || (u.queries == v.queries && u.nextQuery == v.nextQuery)
            || (exists r :: u.queries == v.queries[v.nextQuery := Query(r, v.clock)] && u.nextQuery == v.nextQuery + 1)
  {
    var w := AddStep(cfg, v, a.name, a.room);
    assert w.queries == v.queries && w.nextQuery == v.nextQuery && w.clock == v.clock;
    hide AddStep, LowerAll;
  }

  lemma DrainToRecord<A, F>(v: View<A, F>, d: nat, why: Why<A>, r: nat)
    requires r < |v.records| && d < |v.records|
    ensures var w := Drain(v, d, why);
            && |w.records| == |v.records| && w.queries == v.queries && w.nextQuery == v.nextQuery
            && w.records[r].letAt == v.records[r].letAt && w.records[r].waiting == v.records[r].waiting
  {
  }

  lemma ResultToRecord<A, F>(v: View<A, F>, query: nat, addrs: seq<A>, pick: nat, r: nat)
    requires r < |v.records|
    ensures var w := ResultStep(v, query, addrs, pick);
            && |w.records| == |v.records| && w.nextQuery == v.nextQuery
            && (w.queries == v.queries || w.queries == v.queries - {query})
            && w.records[r].letAt == v.records[r].letAt && w.records[r].waiting == v.records[r].waiting
  {
  }

  lemma LoopToRecord<A, F>(v: View<A, F>, pick: nat, r: nat)
    requires Looping(v) && r < |v.records|
    ensures var (w, calls) := LoopStep(v, pick);
            && |w.records| == |v.records| && w.queries == v.queries && w.nextQuery == v.nextQuery
            && w.records[r].letAt == v.records[r].letAt
            && var was, now := v.records[r].waiting, w.records[r].waiting;
            || now == was
            || (was != [] && now == was[1..] && calls == [Call(was[0].callback, Told(v))] && Top(v).record == r)
  {
    hide Told;
  }

  // ----- the table is a set of lower-cased names

  /** Whether a step enters its name, if it is not there. */
  ghost predicate Enters<A, F>(cfg: Config<A>, v: View<A, F>, a: Act<A, F>) {
    Enabled(v, a) && (a.Add? || a.Start?) && Takes(cfg, a.name) && (v.free != [] || a.room)
  }

  lemma AddIsSet<A, F>(cfg: Config<A>, v: View<A, F>, name: Str, room: bool)
    requires Sane(v)
    ensures var w := AddStep(cfg, v, name, room);
            && (forall n :: n in w.index <==>
                n in v.index || (n == LowerAll(name) && Takes(cfg, name) && (v.free != [] || room)))
            && (forall n :: n in v.index ==> w.index[n] == v.index[n])
  {
    InPlace(v);
    hide LowerAll, Sane;
  }

  lemma StartIsAdd<A, F>(cfg: Config<A>, v: View<A, F>, a: Act<A, F>)
    requires a.Start?
    ensures StartStep(cfg, v, a.name, a.callback, a.room, a.roomCtx, a.pick).0.index ==
            AddStep(cfg, v, a.name, a.room).index
  {
    assert !Takes(cfg, a.name) ==> AddStep(cfg, v, a.name, a.room) == v;
    hide LowerAll, AddStep;
  }

  lemma DelIsSet<A, F>(cfg: Config<A>, v: View<A, F>, name: Str)
    requires Sane(v)
    ensures var w := DelStep(cfg, v, name);
            && (forall n :: n in w.index <==> n in v.index && !(n == LowerAll(name) && Takes(cfg, name)))
            && (forall n :: n in w.index ==> w.index[n] == v.index[n])
  {
    InPlace(v);
    hide LowerAll, Sane;
  }

  /** A step changes the set of names at its own name only, and every other name keeps its record. */
  lemma TableIsSet<A, F>(cfg: Config<A>, v: View<A, F>, a: Act<A, F>)
    requires Sane(v)
    ensures var w := Step(cfg, v, a).0;
            && (forall n :: n in w.index <==>
                  || (n in v.index && !(Enabled(v, a) && a.Del? && Takes(cfg, a.name) && n == LowerAll(a.name)))
                  || (Enters(cfg, v, a) && n == LowerAll(a.name)))
            && (forall n :: n in v.index && n in w.index ==> w.index[n] == v.index[n])
  {
    hide LowerAll, Sane, AddStep, DelStep, StartStep, ResultStep, LoopStep, ReturnStep, Takes;
    if Enabled(v, a) {
      match a
      case Add(name, room) => AddIsSet(cfg, v, name, room);
      case Del(name) => DelIsSet(cfg, v, name);
      case Start(name, _, room, _, _) =>
        AddIsSet(cfg, v, name, room);
        StartIsAdd(cfg, v, a);
      case Ask(_) =>
      case Result(query, addrs, pick) => ResultKeepsTable(v, query, addrs, pick);
      case Loop(pick) => LoopKeepsTable(v, pick);
      case Return => ReturnKeepsTable(v);
    }
  }

  lemma ResultKeepsTable<A, F>(v: View<A, F>, query: nat, addrs: seq<A>, pick: nat)
    ensures ResultStep(v, query, addrs, pick).index == v.index
  {
  }

  lemma LoopKeepsTable<A, F>(v: View<A, F>, pick: nat)
    requires Looping(v)
    ensures LoopStep(v, pick).0.index == v.index
  {
    hide Told;
  }

  lemma ReturnKeepsTable<A, F>(v: View<A, F>)
    requires InCallback(v)
    ensures ReturnStep(v).index == v.index
  {
  }

  // ----- called by the first later result or deletion

  /** The callback that the loop calls next is called by a drain that began before it was asked for. */
  ghost predicate CallsEarly<A, F>(v: View<A, F>)
    requires Looping(v) && v.records[Top(v).record].waiting != []
  {
    Top(v).began < v.records[Top(v).record].waiting[0].since
  }

  /**
   A callback is called before any result that came later, exactly if its record was being drained when it was
   asked for and no drain of the record began since: the drain in progress takes it along. So a callback that asks
   for its own failed domain again is told of the old failure; one that asks outside all drains never is.
   */
  lemma CalledEarlyIff<A, F>(v: View<A, F>)
    requires Sane(v) && Looping(v) && v.records[Top(v).record].waiting != []
    ensures var rec := v.records[Top(v).record];
            CallsEarly(v) <==> rec.waiting[0].drained && rec.drainAt < rec.waiting[0].since
  {
    hide Placed, RecordOk, QueriesOk;
    var f, k := Top(v), |v.stack| - 1;
    var rec := v.records[f.record];
    var w := rec.waiting[0];
    RecordAt(v.records, v.stack, v.clock, f.record);
    TopAt(v);
    assert w in rec.waiting;
    if f.began < w.since {
      assert v.stack[k] == f;
      assert BegunBefore(v.stack, f.record, w.since);
    }
    if f.began < rec.drainAt {
      forall i | 0 <= i < |v.stack| ensures v.stack[i].began < rec.drainAt {
        assert i < k ==> v.stack[i].began < v.stack[k].began;
      }
      assert !BegunAt(v.stack, f.record, rec.drainAt);
    }
  }

  /** A callback that came before the last drain to begin is called by that one, whatever came before it. */
  lemma CalledByLastDrain<A, F>(v: View<A, F>)
    requires Sane(v) && Looping(v) && v.records[Top(v).record].waiting != []
    requires v.records[Top(v).record].waiting[0].since < v.records[Top(v).record].drainAt
    ensures Top(v).began == v.records[Top(v).record].drainAt
  {
    hide Placed, RecordOk, QueriesOk, BegunBefore;
    var f, k := Top(v), |v.stack| - 1;
    var rec := v.records[f.record];
    RecordAt(v.records, v.stack, v.clock, f.record);
    TopAt(v);
    assert rec.waiting[0] in rec.waiting;
    assert forall i :: 0 <= i <= k ==> v.stack[i].began <= f.began;
    var i :| 0 <= i < |v.stack| && v.stack[i].record == f.record && v.stack[i].began == rec.drainAt;
  }

  /** Who waits leaves only by being called. */
  lemma WaitsUntilCalled<A, F>(cfg: Config<A>, v: View<A, F>, a: Act<A, F>, r: nat)
    requires Sane(v) && r < |v.records|
    ensures var (w, calls) := Step(cfg, v, a);
            && r < |w.records|
            && var was, now := v.records[r].waiting, w.records[r].waiting;
            || now == was
            || (a.Start? && now != [] && now[1..] == was && now[0].callback == a.callback)
            || (a.Loop? && was != [] && now == was[1..] && calls == [Call(was[0].callback, Told(v))]
                && Top(v).record == r)
  {
    hide LowerAll, Sane, AddStep, StartStep, ResultStep, LoopStep, ReturnStep, Drain, Opened, Told;
    if Enabled(v, a) {
      match a
      case Add(_, _) => AddToRecord(cfg, v, a, r);
      case Del(name) =>
        var key := LowerAll(name);
        if key in v.index && v.index[key] < |v.records| {
          DrainToRecord(v.(index := v.index - {key}), v.index[key], Deletion, r);
        }
      case Start(_, _, _, _, _) =>
        AddToRecord(cfg, v, a, r);
        StartToRecord(cfg, v, a, r);
      case Ask(_) =>
      case Result(query, addrs, pick) => ResultToRecord(v, query, addrs, pick, r);
      case Loop(pick) => LoopToRecord(v, pick, r);
      case Return => ReturnKeepsRecords(v);
    }
  }

  // The same over a run: from the step that asks to the call, does a drain of the record begin?

  /** A step with which a drain of the record begins. */
  ghost predicate Drains<A, F>(cfg: Config<A>, v: View<A, F>, a: Act<A, F>, r: nat) {
    && Enabled(v, a)
    && match a
       case Del(name) => Takes(cfg, name) && LowerAll(name) in v.index && v.index[LowerAll(name)] == r
       case Result(query, _, _) => query in v.queries && v.queries[query].record == r
       case _ => false
  }

  ghost predicate DrainedDuring<A, F>(cfg: Config<A>, v: View<A, F>, acts: seq<Act<A, F>>, r: nat)
    decreases acts
  {
    acts != [] && (Drains(cfg, v, acts[0], r) || DrainedDuring(cfg, Step(cfg, v, acts[0]).0, acts[1..], r))
  }

  lemma AddKeepsDrained<A, F>(cfg: Config<A>, v: View<A, F>, name: Str, room: bool, r: nat)
    requires r < |v.records|
    ensures var w := AddStep(cfg, v, name, room); r < |w.records| && w.records[r].drainAt == v.records[r].drainAt
  {
    hide LowerAll;
  }

  lemma StartKeepsDrained<A, F>(cfg: Config<A>, v: View<A, F>, a: Act<A, F>, r: nat)
    requires r < |v.records| && a.Start?
    ensures var u := StartStep(cfg, v, a.name, a.callback, a.room, a.roomCtx, a.pick).0;
            r < |u.records| && u.records[r].drainAt == v.records[r].drainAt
  {
    AddKeepsDrained(cfg, v, a.name, a.room, r);
    hide LowerAll, AddStep;
  }

  lemma ResultDrains<A, F>(v: View<A, F>, query: nat, addrs: seq<A>, pick: nat, r: nat)
    requires r < |v.records| && (query in v.queries ==> v.queries[query].record < |v.records|)
    ensures var w := ResultStep(v, query, addrs, pick);
            && r < |w.records|
            && w.records[r].drainAt ==
               if query in v.queries && v.queries[query].record == r then v.clock else v.records[r].drainAt
  {
  }

  lemma LoopKeepsDrained<A, F>(v: View<A, F>, pick: nat, r: nat)
    requires Looping(v) && r < |v.records|
    ensures var w := LoopStep(v, pick).0; r < |w.records| && w.records[r].drainAt == v.records[r].drainAt
  {
    hide Told;
  }

  lemma DrainAtIs<A, F>(cfg: Config<A>, v: View<A, F>, a: Act<A, F>, r: nat)
    requires Sane(v) && r < |v.records|
    ensures var w := Step(cfg, v, a).0;
            r < |w.records| && w.records[r].drainAt == if Drains(cfg, v, a, r) then v.clock else v.records[r].drainAt
  {
    hide LowerAll, AddStep, StartStep, ResultStep, LoopStep, ReturnStep;
    if Enabled(v, a) {
      match a
      case Add(name, room) => AddKeepsDrained(cfg, v, name, room, r);
      case Del(_) => InPlace(v);
      case Start(_, _, _, _, _) => StartKeepsDrained(cfg, v, a, r);
      case Ask(_) =>
      case Result(query, addrs, pick) =>
        QueriesBelow(v);
        ResultDrains(v, query, addrs, pick, r);
      case Loop(pick) => LoopKeepsDrained(v, pick, r);
      case Return => ReturnKeepsRecords(v);
    }
    hide Sane;
  }

  lemma {:induction false} DrainAtOverRun<A, F>(cfg: Config<A>, v: View<A, F>, acts: seq<Act<A, F>>, r: nat, t: nat)
    requires Sane(v) && r < |v.records| && t < v.clock
    ensures var w := RunOf(cfg, v, acts).0;
            && Sane(w) && r < |w.records|
            && (w.records[r].drainAt <= t <==> v.records[r].drainAt <= t && !DrainedDuring(cfg, v, acts, r))
    decreases acts
  {
    hide Step, Sane, Drains;
    if acts != [] {
      var w := Step(cfg, v, acts[0]).0;
      StepIsSane(cfg, v, acts[0]);
      DrainAtIs(cfg, v, acts[0], r);
      StepClock(cfg, v, acts[0]);
      DrainAtOverRun(cfg, w, acts[1..], r, t);
    }
  }

  lemma StepClock<A, F>(cfg: Config<A>, v: View<A, F>, a: Act<A, F>)
    ensures Step(cfg, v, a).0.clock == if Enabled(v, a) then v.clock + 1 else v.clock
  {
  }

  ghost function WaitersAt<A, F>(v: View<A, F>, r: nat): seq<Wait<F>> {
    if r < |v.records| then v.records[r].waiting else []
  }

  lemma StartMarks<A, F>(cfg: Config<A>, v: View<A, F>, a: Act<A, F>, r: nat)
    requires Sane(v) && Idle(v) && a.Start?
    ensures var u := StartStep(cfg, v, a.name, a.callback, a.room, a.roomCtx, a.pick).0;
            |WaitersAt(u, r)| > |WaitersAt(v, r)| ==>
              && r < |u.records| && u.records[r].drainAt < v.clock
              && WaitersAt(u, r)[0] == Wait(a.callback, v.clock, BeingDrained(v, r))
  {
    hide LowerAll, Sane, SaneAt, AddStep, Takes, Idle, Waiting, WaitersAt, BeingDrained;
    var w := AddStep(cfg, v, a.name, a.room);
    var key := LowerAll(a.name);
    AddLeavesWaiters(cfg, v, a.name, a.room, r);
    assert w.clock == v.clock && forall d :: 0 <= d < |w.records| ==> w.records[d].drainAt < v.clock by {
      AddIsSane(cfg, v, a.name, a.room);
    }
    if key in w.index && w.index[key] < |w.records| {
      WaitingMarks(w, w.index[key], a.callback, r);
    }
  }

  /** Who comes to wait is marked with the time and with whether the record was being drained. */
  lemma WhoComes<A, F>(cfg: Config<A>, v: View<A, F>, a: Act<A, F>, r: nat)
    requires Sane(v) && Enabled(v, a) && a.Start?
    requires |WaitersAt(Step(cfg, v, a).0, r)| > |WaitersAt(v, r)|
    ensures var w := Step(cfg, v, a).0;
            && r < |w.records| && w.records[r].drainAt < v.clock
            && w.records[r].waiting[0] == Wait(a.callback, v.clock, BeingDrained(v, r))
  {
    hide Sane, StartStep, BeingDrained;
    StartMarks(cfg, v, a, r);
  }

  lemma WaitingMarks<A, F>(v: View<A, F>, d: nat, callback: F, r: nat)
    requires d < |v.records|
    ensures var w := Waiting(v, d, callback);
            |WaitersAt(w, r)| > |WaitersAt(v, r)| ==>
              && r == d && r < |w.records| && w.records[r].drainAt == v.records[d].drainAt
              && WaitersAt(w, r)[0] == Wait(callback, v.clock, BeingDrained(v, r))
  {
    hide BeingDrained;
  }

  lemma AddLeavesWaiters<A, F>(cfg: Config<A>, v: View<A, F>, name: Str, room: bool, r: nat)
    requires Sane(v)
    ensures var w := AddStep(cfg, v, name, room);
            WaitersAt(w, r) == WaitersAt(v, r) && (BeingDrained(w, r) <==> BeingDrained(v, r))
  {
    hide LowerAll, Sane, BeingDrained;
    SameDrained(AddStep(cfg, v, name, room), v, r);
    InPlace(v);
  }

  lemma SameDrained<A, F>(v: View<A, F>, w: View<A, F>, r: nat)
    requires v.stack == w.stack
    ensures BeingDrained(v, r) <==> BeingDrained(w, r)
  {
  }

  /**
   For every run from a step that asks to the call: the callback is called early exactly if its record was being
   drained when it was asked for and no result or deletion came for the record until the call.
   */
  lemma RunCallsEarlyIff<A, F>(cfg: Config<A>, v: View<A, F>, asking: Act<A, F>, acts: seq<Act<A, F>>, r: nat)
    requires Sane(v) && Enabled(v, asking) && asking.Start?
    requires |WaitersAt(Step(cfg, v, asking).0, r)| > |WaitersAt(v, r)|
    requires var v1 := Step(cfg, v, asking).0;
             var w := RunOf(cfg, v1, acts).0;
             && Looping(w) && Top(w).record == r && w.records[r].waiting != []
             && w.records[r].waiting[0] == WaitersAt(v1, r)[0]
    ensures var v1 := Step(cfg, v, asking).0;
            CallsEarly(RunOf(cfg, v1, acts).0) <==> BeingDrained(v, r) && !DrainedDuring(cfg, v1, acts, r)
  {
    hide Step, Sane, RunOf, DrainedDuring, BeingDrained, CallsEarly, Enabled;
    var v1 := Step(cfg, v, asking).0;
    WhoComes(cfg, v, asking, r);
    StepIsSane(cfg, v, asking);
    StepClock(cfg, v, asking);
    var w := RunOf(cfg, v1, acts).0;
    DrainAtOverRun(cfg, v1, acts, r, v.clock - 1);
    CalledEarlyIff(w);
  }

  /** When the first drain of the record begins, and how many do. */
  ghost function FirstDrain<A, F>(cfg: Config<A>, v: View<A, F>, acts: seq<Act<A, F>>, r: nat): Option<nat>
    decreases acts
  {
    if acts == [] then None
    else if Drains(cfg, v, acts[0], r) then Some(v.clock)
    else FirstDrain(cfg, Step(cfg, v, acts[0]).0, acts[1..], r)
  }

  ghost function DrainCount<A, F>(cfg: Config<A>, v: View<A, F>, acts: seq<Act<A, F>>, r: nat): nat
    decreases acts
  {
    if acts == [] then 0
    else (if Drains(cfg, v, acts[0], r) then 1 else 0) + DrainCount(cfg, Step(cfg, v, acts[0]).0, acts[1..], r)
  }

  /** The last drain of a run is its first exactly if there is but one. */
  lemma {:induction false} LastIsFirstIff<A, F>(cfg: Config<A>, v: View<A, F>, acts: seq<Act<A, F>>, r: nat)
    requires Sane(v) && r < |v.records|
    ensures var w := RunOf(cfg, v, acts).0;
            && Sane(w) && r < |w.records|
            && (DrainCount(cfg, v, acts, r) == 0 ==>
                  FirstDrain(cfg, v, acts, r) == None && w.records[r].drainAt == v.records[r].drainAt)
            && (DrainCount(cfg, v, acts, r) > 0 ==>
                  && w.records[r].drainAt >= v.clock && FirstDrain(cfg, v, acts, r).Some?
                  && v.clock <= FirstDrain(cfg, v, acts, r).value <= w.records[r].drainAt
                  && (FirstDrain(cfg, v, acts, r).value == w.records[r].drainAt <==> DrainCount(cfg, v, acts, r) == 1))
    decreases acts
  {
    hide Step, Sane, Drains;
    if acts != [] {
      var w := Step(cfg, v, acts[0]).0;
      StepIsSane(cfg, v, acts[0]);
      DrainAtIs(cfg, v, acts[0], r);
      StepClock(cfg, v, acts[0]);
      OnlyEnabledDrains(cfg, v, acts[0], r);
      LastIsFirstIff(cfg, w, acts[1..], r);
    }
  }

  lemma OnlyEnabledDrains<A, F>(cfg: Config<A>, v: View<A, F>, a: Act<A, F>, r: nat)
    ensures Drains(cfg, v, a, r) ==> Enabled(v, a)
  {
  }

  /**
   For every run from a step that asks to the call: the callback is called by the first result or deletion that
   came for its record since it was asked for exactly if that was the only one. It is not if none came, and
   the drain in progress takes it along; nor if a later one, begun by a callback of the first, reaches it before.
   */
  lemma CalledByFirstLaterIff<A, F>(cfg: Config<A>, v: View<A, F>, asking: Act<A, F>, acts: seq<Act<A, F>>, r: nat)
    requires Sane(v) && Enabled(v, asking) && asking.Start?
    requires |WaitersAt(Step(cfg, v, asking).0, r)| > |WaitersAt(v, r)|
    requires var v1 := Step(cfg, v, asking).0;
             var w := RunOf(cfg, v1, acts).0;
             && Looping(w) && Top(w).record == r && w.records[r].waiting != []
             && w.records[r].waiting[0] == WaitersAt(v1, r)[0]
    ensures var v1 := Step(cfg, v, asking).0;
            FirstDrain(cfg, v1, acts, r) == Some(Top(RunOf(cfg, v1, acts).0).began) <==>
              DrainCount(cfg, v1, acts, r) == 1
  {
    hide Step, Sane, RunOf, FirstDrain, DrainCount, BeingDrained, Enabled;
    var v1 := Step(cfg, v, asking).0;
    WhoComes(cfg, v, asking, r);
    StepIsSane(cfg, v, asking);
    StepClock(cfg, v, asking);
    LastIsFirstIff(cfg, v1, acts, r);
    var w := RunOf(cfg, v1, acts).0;
    if w.records[r].drainAt > w.records[r].waiting[0].since {
      CalledByLastDrain(w);
    }
  }

  // ----- the loop over the addresses

  /**
   A callback's return divides by zero exactly if the drain hands out addresses and the record was let again after
   it last got any; that is, after this drain began.
   */
  lemma DividesByZeroIff<A, F>(v: View<A, F>)
    requires Sane(v) && InCallback(v)
    ensures var f := Top(v);
            var rec := v.records[f.record];
            && (ReturnStep(v).fault == Some(DividesByZero) <==> f.why.Answers? && rec.setAt < rec.letAt)
            && (f.why.Answers? && rec.setAt < rec.letAt ==> f.began < rec.letAt)
  {
    TopAt(v);
    FramesAt(v, Top(v).record);
  }

  /**
   The loop reads beyond the addresses it was given exactly if, with nobody waiting, the record has more of them
   than that; then they were set by another result, after this drain began.
   */
  lemma ReadsBeyondIff<A, F>(v: View<A, F>, pick: nat)
    requires Sane(v) && Looping(v)
    ensures var f := Top(v);
            var rec := v.records[f.record];
            && (LoopStep(v, pick).0.fault == Some(ReadsBeyond) <==>
                  rec.waiting == [] && f.why.Answers? && f.why.i + 1 == |f.why.given| < rec.naddrs)
            && (f.why.Answers? && |f.why.given| < rec.naddrs ==> f.began < rec.setAt)
  {
    TopAt(v);
    FramesAt(v, Top(v).record);
  }

  // Over a run: how many addresses the record has.

  /** What the last step that let the record or gave it addresses left it with; `before` if there is none. */
  ghost function LastGiven<A, F>(cfg: Config<A>, v: View<A, F>, acts: seq<Act<A, F>>, r: nat, before: nat): nat
    decreases acts
  {
    if acts == [] then before
    else LastGiven(cfg, Step(cfg, v, acts[0]).0, acts[1..], r, GivenAfter(cfg, v, acts[0], r, before))
  }

  ghost function GivenAfter<A, F>(cfg: Config<A>, v: View<A, F>, a: Act<A, F>, r: nat, before: nat): nat {
    if Lets(cfg, v, a, r) then 0
    else if Sets(v, a, r) && a.Result? then Min(|a.addrs|, MAX_ADDRS)
    else before
  }

  lemma AddGives<A, F>(cfg: Config<A>, v: View<A, F>, a: Act<A, F>, r: nat)
    requires Sane(v) && Enabled(v, a) && (a.Add? || a.Start?) && r < |v.records|
    ensures var w := AddStep(cfg, v, a.name, a.room);
            && r < |w.records|
            && w.records[r].naddrs == if Lets(cfg, v, a, r) then 0 else v.records[r].naddrs
  {
    hide LowerAll, Sane;
    InPlace(v);
  }

  lemma StartGives<A, F>(cfg: Config<A>, v: View<A, F>, a: Act<A, F>, r: nat)
    requires Sane(v) && Enabled(v, a) && a.Start? && r < |v.records|
    ensures var u := StartStep(cfg, v, a.name, a.callback, a.room, a.roomCtx, a.pick).0;
            && r < |u.records|
            && u.records[r].naddrs == if Lets(cfg, v, a, r) then 0 else v.records[r].naddrs
  {
    AddGives(cfg, v, a, r);
    assert !Takes(cfg, a.name) ==> AddStep(cfg, v, a.name, a.room) == v;
    hide LowerAll, Sane, AddStep;
  }

  lemma ResultGives<A, F>(v: View<A, F>, query: nat, addrs: seq<A>, pick: nat, r: nat)
    requires r < |v.records| && Idle(v)
    ensures var w, a := ResultStep(v, query, addrs, pick), Result(query, addrs, pick);
            && r < |w.records|
            && w.records[r].naddrs == if Sets(v, a, r) then Min(|addrs|, MAX_ADDRS) else v.records[r].naddrs
  {
  }

  lemma LoopGivesNothing<A, F>(v: View<A, F>, pick: nat, r: nat)
    requires Looping(v) && r < |v.records|
    ensures var w := LoopStep(v, pick).0; r < |w.records| && w.records[r].naddrs == v.records[r].naddrs
  {
    hide Told;
  }

  lemma GivenIs<A, F>(cfg: Config<A>, v: View<A, F>, a: Act<A, F>, r: nat)
    requires Sane(v) && r < |v.records|
    ensures var w := Step(cfg, v, a).0;
            r < |w.records| && w.records[r].naddrs == GivenAfter(cfg, v, a, r, v.records[r].naddrs)
  {
    hide LowerAll, Sane, AddStep, StartStep, ResultStep, LoopStep, ReturnStep;
    if Enabled(v, a) {
      match a
      case Add(_, _) => AddGives(cfg, v, a, r);
      case Del(_) =>
      case Start(_, _, _, _, _) => StartGives(cfg, v, a, r);
      case Ask(_) =>
      case Result(query, addrs, pick) => ResultGives(v, query, addrs, pick, r);
      case Loop(pick) => LoopGivesNothing(v, pick, r);
      case Return => ReturnKeepsRecords(v);
    }
  }

  lemma {:induction false} GivenOverRun<A, F>(cfg: Config<A>, v: View<A, F>, acts: seq<Act<A, F>>, r: nat)
    requires Sane(v) && r < |v.records|
    ensures var w := RunOf(cfg, v, acts).0;
            && Sane(w) && r < |w.records|
            && w.records[r].naddrs == LastGiven(cfg, v, acts, r, v.records[r].naddrs)
    decreases acts
  {
    hide Step, Sane, GivenAfter;
    if acts != [] {
      StepIsSane(cfg, v, acts[0]);
      GivenIs(cfg, v, acts[0], r);
      GivenOverRun(cfg, Step(cfg, v, acts[0]).0, acts[1..], r);
    }
  }

  /**
   For every run, from the beginning of a drain or from any other state: a loop that is through with the last of its
   addresses reads beyond them exactly if the last step of the run that let the record or gave it addresses gave it
   more than that; if there was none, the record had more before.
   */
  lemma RunReadsBeyondIff<A, F>(cfg: Config<A>, v: View<A, F>, acts: seq<Act<A, F>>, pick: nat)
    requires Sane(v) && Looping(RunOf(cfg, v, acts).0) && Top(RunOf(cfg, v, acts).0).record < |v.records|
    ensures var w := RunOf(cfg, v, acts).0;
            var f := Top(w);
            LoopStep(w, pick).0.fault == Some(ReadsBeyond) <==>
              && f.why.Answers? && w.records[f.record].waiting == [] && f.why.i + 1 == |f.why.given|
              && |f.why.given| < LastGiven(cfg, v, acts, f.record, v.records[f.record].naddrs)
  {
    hide RunOf, LastGiven, Sane, LoopStep;
    var w := RunOf(cfg, v, acts).0;
    GivenOverRun(cfg, v, acts, Top(w).record);
    ReadsBeyondIff(w, pick);
  }

  // ----- results and the domains that asked

  /** The record was let again since the query was asked, to another domain or to the same. */
  ghost predicate Stale<A, F>(v: View<A, F>, q: nat) {
    && q in v.queries && v.queries[q].record < |v.records|
    && v.queries[q].asked < v.records[v.queries[q].record].letAt
  }

  /** The times of letting are those of the steps that let. */
  lemma LetAtIs<A, F>(cfg: Config<A>, v: View<A, F>, a: Act<A, F>, r: nat)
    requires Sane(v) && r < |v.records|
    ensures var w := Step(cfg, v, a).0;
            r < |w.records| && w.records[r].letAt == if Lets(cfg, v, a, r) then v.clock else v.records[r].letAt
  {
    hide LowerAll, Sane, AddStep, StartStep, ResultStep, LoopStep, ReturnStep, Drain, Opened;
    if Enabled(v, a) {
      match a
      case Add(_, _) => AddToRecord(cfg, v, a, r);
      case Del(name) =>
        var key := LowerAll(name);
        if key in v.index && v.index[key] < |v.records| {
          DrainToRecord(v.(index := v.index - {key}), v.index[key], Deletion, r);
        }
      case Start(_, _, _, _, _) =>
        AddToRecord(cfg, v, a, r);
        StartToRecord(cfg, v, a, r);
      case Ask(_) =>
      case Result(query, addrs, pick) => ResultToRecord(v, query, addrs, pick, r);
      case Loop(pick) => LoopToRecord(v, pick, r);
      case Return => ReturnKeepsRecords(v);
    }
  }

  /** A query stays what it is until its result comes. */
  lemma QueryStays<A, F>(cfg: Config<A>, v: View<A, F>, a: Act<A, F>, q: nat)
    requires Sane(v)
    ensures var w := Step(cfg, v, a).0;
            && (q in v.queries && q in w.queries ==> w.queries[q] == v.queries[q])
            && (q in v.queries && q !in w.queries ==> a.Result? && a.query == q)
            && (q !in v.queries && q in w.queries ==> q == v.nextQuery && w.queries[q].asked == v.clock)
            && v.nextQuery <= w.nextQuery
  {
    hide LowerAll, AddStep, StartStep, ReturnStep, LoopStep, ResultStep, Opened, Drain;
    QueriesBelow(v);
    if Enabled(v, a) {
      match a
      case Add(name, room) => AddKeepsQueries(cfg, v, name, room);
      case Del(name) => DelKeepsQueries(cfg, v, name);
      case Start(_, _, _, _, _) => StartToQueries(cfg, v, a);
      case Ask(_) =>
      case Result(query, addrs, pick) => ResultToQueries(v, query, addrs, pick);
      case Loop(pick) => LoopKeepsQueries(v, pick);
      case Return => ReturnKeepsRecords(v);
    }
    hide Sane;
  }

  lemma QueriesBelow<A, F>(v: View<A, F>)
    requires Sane(v)
    ensures forall q :: q in v.queries ==>
            q < v.nextQuery && v.queries[q].record < |v.records| && v.queries[q].asked < v.clock
  {
  }

  lemma AddKeepsQueries<A, F>(cfg: Config<A>, v: View<A, F>, name: Str, room: bool)
    ensures var w := AddStep(cfg, v, name, room); w.queries == v.queries && w.nextQuery == v.nextQuery
  {
  }

  lemma DelKeepsQueries<A, F>(cfg: Config<A>, v: View<A, F>, name: Str)
    ensures var w := DelStep(cfg, v, name); w.queries == v.queries && w.nextQuery == v.nextQuery
  {
  }

  lemma ResultToQueries<A, F>(v: View<A, F>, query: nat, addrs: seq<A>, pick: nat)
    ensures var w := ResultStep(v, query, addrs, pick);
            && w.nextQuery == v.nextQuery
            && (w.queries == v.queries || w.queries == v.queries - {query})
  {
  }

  lemma LoopKeepsQueries<A, F>(v: View<A, F>, pick: nat)
    requires Looping(v)
    ensures var w := LoopStep(v, pick).0; w.queries == v.queries && w.nextQuery == v.nextQuery
  {
  }

  // ----- over a run, which of letting and setting was last

  /** A step that gives the record addresses. */
  ghost predicate Sets<A, F>(v: View<A, F>, a: Act<A, F>, r: nat) {
    Enabled(v, a) && a.Result? && a.query in v.queries && v.queries[a.query].record == r && a.addrs != []
  }

  lemma AddKeepsSet<A, F>(cfg: Config<A>, v: View<A, F>, name: Str, room: bool, r: nat)
    requires r < |v.records|
    ensures var w := AddStep(cfg, v, name, room); r < |w.records| && w.records[r].setAt == v.records[r].setAt
  {
    hide LowerAll;
  }

  lemma StartKeepsSet<A, F>(cfg: Config<A>, v: View<A, F>, a: Act<A, F>, r: nat)
    requires r < |v.records| && a.Start?
    ensures var u := StartStep(cfg, v, a.name, a.callback, a.room, a.roomCtx, a.pick).0;
            r < |u.records| && u.records[r].setAt == v.records[r].setAt
  {
    AddKeepsSet(cfg, v, a.name, a.room, r);
    hide LowerAll, AddStep;
  }

  lemma ResultSets<A, F>(v: View<A, F>, query: nat, addrs: seq<A>, pick: nat, r: nat)
    requires r < |v.records| && Idle(v)
    ensures var w := ResultStep(v, query, addrs, pick);
            && r < |w.records|
            && w.records[r].setAt == if Sets(v, Result(query, addrs, pick), r) then v.clock else v.records[r].setAt
  {
  }

  lemma LoopKeepsSet<A, F>(v: View<A, F>, pick: nat, r: nat)
    requires Looping(v) && r < |v.records|
    ensures var w := LoopStep(v, pick).0; r < |w.records| && w.records[r].setAt == v.records[r].setAt
  {
    hide Told;
  }

  /** The times of getting addresses are those of the steps that give them. */
  lemma SetAtIs<A, F>(cfg: Config<A>, v: View<A, F>, a: Act<A, F>, r: nat)
    requires r < |v.records|
    ensures var w := Step(cfg, v, a).0;
            r < |w.records| && w.records[r].setAt == if Sets(v, a, r) then v.clock else v.records[r].setAt
  {
    hide LowerAll, AddStep, StartStep, ResultStep, LoopStep, ReturnStep;
    if Enabled(v, a) {
      match a
      case Add(name, room) => AddKeepsSet(cfg, v, name, room, r);
      case Del(_) =>
      case Start(_, _, _, _, _) => StartKeepsSet(cfg, v, a, r);
      case Ask(_) =>
      case Result(query, addrs, pick) => ResultSets(v, query, addrs, pick, r);
      case Loop(pick) => LoopKeepsSet(v, pick, r);
      case Return => ReturnKeepsRecords(v);
    }
  }

  /** Of the steps that let the record or give it addresses the last one let it; `before` if there is none. */
  ghost predicate LetLast<A, F>(cfg: Config<A>, v: View<A, F>, acts: seq<Act<A, F>>, r: nat, before: bool)
    decreases acts
  {
    if acts == [] then before
    else LetLast(cfg, Step(cfg, v, acts[0]).0, acts[1..], r,
                 Lets(cfg, v, acts[0], r) || (before && !Sets(v, acts[0], r)))
  }

  ghost predicate LetSinceSet<A, F>(v: View<A, F>, r: nat)
    requires r < |v.records|
  {
    v.records[r].setAt < v.records[r].letAt
  }

  lemma {:induction false} LetSinceSetIff<A, F>(cfg: Config<A>, v: View<A, F>, acts: seq<Act<A, F>>, r: nat)
    requires Sane(v) && r < |v.records|
    ensures var w := RunOf(cfg, v, acts).0;
            Sane(w) && r < |w.records| && (LetSinceSet(w, r) <==> LetLast(cfg, v, acts, r, LetSinceSet(v, r)))
    decreases acts
  {
    hide Step, Sane, Lets, Sets;
    if acts != [] {
      var w := Step(cfg, v, acts[0]).0;
      StepIsSane(cfg, v, acts[0]);
      LetAtIs(cfg, v, acts[0], r);
      SetAtIs(cfg, v, acts[0], r);
      TimesBefore(v, r);
      NotBoth(cfg, v, acts[0], r);
      LetSinceSetIff(cfg, w, acts[1..], r);
    }
  }

  lemma TimesBefore<A, F>(v: View<A, F>, r: nat)
    requires Sane(v) && r < |v.records|
    ensures v.records[r].letAt < v.clock && v.records[r].setAt < v.clock
  {
    FramesAt(v, r);
  }

  lemma NotBoth<A, F>(cfg: Config<A>, v: View<A, F>, a: Act<A, F>, r: nat)
    ensures !(Lets(cfg, v, a, r) && Sets(v, a, r))
  {
  }

  /**
   For every run from a drain's beginning, or from any other state: a return divides by zero exactly if its drain
   hands out addresses and the record was let again in the run, or before it, and got no addresses since.
   */
  lemma RunDividesByZeroIff<A, F>(cfg: Config<A>, v: View<A, F>, acts: seq<Act<A, F>>)
    requires Sane(v) && InCallback(RunOf(cfg, v, acts).0) && Top(RunOf(cfg, v, acts).0).record < |v.records|
    ensures var w := RunOf(cfg, v, acts).0;
            var f := Top(w);
            ReturnStep(w).fault == Some(DividesByZero) <==>
              f.why.Answers? && LetLast(cfg, v, acts, f.record, LetSinceSet(v, f.record))
  {
    hide RunOf, LetLast, Sane, ReturnStep;
    var w := RunOf(cfg, v, acts).0;
    LetSinceSetIff(cfg, v, acts, Top(w).record);
    DividesByZeroIff(w);
  }

  // Over a run: some step lets the record; the query is under way from end to end.

  ghost predicate LetDuring<A, F>(cfg: Config<A>, v: View<A, F>, acts: seq<Act<A, F>>, r: nat)
    decreases acts
  {
    acts != [] && (Lets(cfg, v, acts[0], r) || LetDuring(cfg, Step(cfg, v, acts[0]).0, acts[1..], r))
  }

  ghost predicate Outstanding<A, F>(cfg: Config<A>, v: View<A, F>, acts: seq<Act<A, F>>, q: nat)
    decreases acts
  {
    q in v.queries && (acts == [] || Outstanding(cfg, Step(cfg, v, acts[0]).0, acts[1..], q))
  }

  /**
   For every run and every query that is under way throughout: its result, when it comes, comes for another domain
   exactly if it would have done so before, or some step of the run let the record again.
   */
  lemma {:induction false} StaleIffLetAgain<A, F>(cfg: Config<A>, v: View<A, F>, acts: seq<Act<A, F>>, q: nat)
    requires Sane(v) && Outstanding(cfg, v, acts, q)
    ensures var w := RunOf(cfg, v, acts).0;
            && Sane(w) && q in w.queries && w.queries[q] == v.queries[q]
            && (Stale(w, q) <==> Stale(v, q) || LetDuring(cfg, v, acts, v.queries[q].record))
    decreases acts
  {
    hide Step, Sane;
    QueriesBelow(v);
    if acts != [] {
      var w := Step(cfg, v, acts[0]).0;
      var r := v.queries[q].record;
      StepIsSane(cfg, v, acts[0]);
      QueryStays(cfg, v, acts[0], q);
      LetAtIs(cfg, v, acts[0], r);
      LetBefore(v, r);
      StaleIffLetAgain(cfg, w, acts[1..], q);
    }
  }

  lemma LetBefore<A, F>(v: View<A, F>, r: nat)
    requires Sane(v) && r < |v.records|
    ensures v.records[r].letAt < v.clock
  {
    FramesAt(v, r);
  }

  /** A query that was just asked is for the domain that asked. */
  lemma AskedIsNotStale<A, F>(cfg: Config<A>, v: View<A, F>, a: Act<A, F>, q: nat)
    requires Sane(v) && q !in v.queries && q in Step(cfg, v, a).0.queries
    ensures !Stale(Step(cfg, v, a).0, q)
  {
    hide Step, Sane;
    var w := Step(cfg, v, a).0;
    QueryStays(cfg, v, a, q);
    StepIsSane(cfg, v, a);
    QueriesBelow(w);
    LetByNow(cfg, v, a, w.queries[q].record);
  }

  lemma LetByNow<A, F>(cfg: Config<A>, v: View<A, F>, a: Act<A, F>, r: nat)
    requires Sane(v) && r < |Step(cfg, v, a).0.records|
    ensures Step(cfg, v, a).0.records[r].letAt <= v.clock
  {
    hide Step, Sane;
    if Enabled(v, a) {
      Clocked(cfg, v, a);
      StepIsSane(cfg, v, a);
      LetBefore(Step(cfg, v, a).0, r);
    } else {
      Clocked(cfg, v, a);
      LetBefore(v, r);
    }
  }

  lemma Clocked<A, F>(cfg: Config<A>, v: View<A, F>, a: Act<A, F>)
    ensures Step(cfg, v, a).0.clock <= v.clock + 1 && (!Enabled(v, a) ==> Step(cfg, v, a).0 == v)
  {
  }

  /** So the result of a query comes for a later letting of its record exactly if a step since it was asked let it. */
  lemma ReachesLaterLettingIff<A, F>(cfg: Config<A>, v: View<A, F>, asking: Act<A, F>, acts: seq<Act<A, F>>, q: nat)
    requires Sane(v) && q !in v.queries && Outstanding(cfg, Step(cfg, v, asking).0, acts, q)
    ensures var w := Step(cfg, v, asking).0;
            Stale(RunOf(cfg, w, acts).0, q) <==> LetDuring(cfg, w, acts, w.queries[q].record)
  {
    hide Step, Sane, LetDuring, RunOf;
    var w := Step(cfg, v, asking).0;
    StepIsSane(cfg, v, asking);
    assert q in w.queries;
    AskedIsNotStale(cfg, v, asking, q);
    StaleIffLetAgain(cfg, w, acts, q);
  }

  // ----- and what that means for the names

  lemma OnlyLettingEnters<A, F>(cfg: Config<A>, v: View<A, F>, a: Act<A, F>, r: nat)
    requires Sane(v) && r < |v.records| && !Lets(cfg, v, a, r)
    ensures var w := Step(cfg, v, a).0;
            forall n :: n in w.index && w.index[n] == r ==> n in v.index && v.index[n] == r
  {
    TableIsSet(cfg, v, a);
    hide LowerAll, Sane, StartStep, DelStep, ResultStep, LoopStep, ReturnStep;
    if Enabled(v, a) && (a.Add? || a.Start?) {
      EntersFree(cfg, v, a, r);
      if a.Start? {
        StartIsAdd(cfg, v, a);
      }
      hide AddStep;
    }
  }

  lemma EntersFree<A, F>(cfg: Config<A>, v: View<A, F>, a: Act<A, F>, r: nat)
    requires Sane(v) && r < |v.records| && Enabled(v, a) && (a.Add? || a.Start?) && !Lets(cfg, v, a, r)
    ensures var w := AddStep(cfg, v, a.name, a.room);
            forall n :: n in w.index && w.index[n] == r ==> n in v.index && v.index[n] == r
  {
    InPlace(v);
    hide LowerAll, Sane;
  }

  lemma LetsEnters<A, F>(cfg: Config<A>, v: View<A, F>, a: Act<A, F>, r: nat)
    requires Sane(v) && r < |v.records| && Lets(cfg, v, a, r)
    ensures Step(cfg, v, a).0.index == v.index[LowerAll(a.name) := r]
    ensures forall n :: n in v.index ==> v.index[n] != r
  {
    InPlace(v);
    hide LowerAll, Sane;
    assert AddStep(cfg, v, a.name, a.room).index == v.index[LowerAll(a.name) := r];
    if a.Start? {
      StartIsAdd(cfg, v, a);
    }
    hide AddStep, StartStep;
  }

  /** Whose the record is. */
  ghost predicate Tenant<A, F>(v: View<A, F>, r: nat, tenant: Option<Str>) {
    forall n :: n in v.index && v.index[n] == r <==> tenant == Some(n)
  }

  ghost function TenantAfter<A, F>(cfg: Config<A>, v: View<A, F>, a: Act<A, F>, r: nat,
                                   tenant: Option<Str>): Option<Str> {
    if Lets(cfg, v, a, r) && (a.Add? || a.Start?) then Some(LowerAll(a.name))
    else if Enabled(v, a) && a.Del? && Takes(cfg, a.name) && tenant == Some(LowerAll(a.name)) then None
    else tenant
  }

  /** The last domain that the record was let to in a run, if that was not deleted again; `tenant` if there is none. */
  ghost function LastTenant<A, F>(cfg: Config<A>, v: View<A, F>, acts: seq<Act<A, F>>, r: nat,
                                  tenant: Option<Str>): Option<Str>
    decreases acts
  {
    if acts == [] then tenant
    else LastTenant(cfg, Step(cfg, v, acts[0]).0, acts[1..], r, TenantAfter(cfg, v, acts[0], r, tenant))
  }

  lemma TenantIs<A, F>(cfg: Config<A>, v: View<A, F>, a: Act<A, F>, r: nat, tenant: Option<Str>)
    requires Sane(v) && r < |v.records| && Tenant(v, r, tenant)
    ensures Tenant(Step(cfg, v, a).0, r, TenantAfter(cfg, v, a, r, tenant))
  {
    hide Step, Sane, LowerAll, Takes;
    if Lets(cfg, v, a, r) {
      LetsEnters(cfg, v, a, r);
    } else {
      OnlyLettingEnters(cfg, v, a, r);
      TableIsSet(cfg, v, a);
      hide Lets, Enabled, Enters;
    }
  }

  lemma {:induction false} TenantOverRun<A, F>(cfg: Config<A>, v: View<A, F>, acts: seq<Act<A, F>>, r: nat,
                                               tenant: Option<Str>)
    requires Sane(v) && r < |v.records| && Tenant(v, r, tenant)
    ensures Tenant(RunOf(cfg, v, acts).0, r, LastTenant(cfg, v, acts, r, tenant))
    decreases acts
  {
    hide Step, Sane, Tenant, TenantAfter;
    if acts != [] {
      StepIsSane(cfg, v, acts[0]);
      LetAtIs(cfg, v, acts[0], r);
      TenantIs(cfg, v, acts[0], r, tenant);
      TenantOverRun(cfg, Step(cfg, v, acts[0]).0, acts[1..], r, TenantAfter(cfg, v, acts[0], r, tenant));
    }
  }

  /**
   Main theorem about results: over every run through which a query is under way, its result reaches another domain
   than the one that asked exactly if the record was let to another one since, and that one was not deleted again.
   It can also reach nobody, or the one that asked after it was deleted and came back to the record.
   */
  lemma ReachesOtherDomainIff<A, F>(cfg: Config<A>, v: View<A, F>, acts: seq<Act<A, F>>, q: nat, name: Str)
    requires Sane(v) && Outstanding(cfg, v, acts, q) && name in v.index && v.index[name] == v.queries[q].record
    ensures var w := RunOf(cfg, v, acts).0;
            var last := LastTenant(cfg, v, acts, v.queries[q].record, Some(name));
            && q in w.queries && w.queries[q].record == v.queries[q].record
            && (forall n :: n in w.index && w.index[n] == w.queries[q].record <==> last == Some(n))
            && ((exists n :: n in w.index && w.index[n] == w.queries[q].record && n != name) <==>
                  last.Some? && last != Some(name))
  {
    hide Step, LastTenant, RunOf;
    StaleIffLetAgain(cfg, v, acts, q);
    QueriesBelow(v);
    OneTenant(v);
    TenantOverRun(cfg, v, acts, v.queries[q].record, Some(name));
    hide Sane;
    var w, last := RunOf(cfg, v, acts).0, LastTenant(cfg, v, acts, v.queries[q].record, Some(name));
    assert last.Some? ==> last.value in w.index;
  }

  lemma OneTenant<A, F>(v: View<A, F>)
    requires Sane(v)
    ensures forall k, l :: k in v.index && l in v.index && v.index[k] == v.index[l] ==> k == l
  {
  }

  /** As long as no step lets the record, nobody comes to it. */
  lemma {:induction false} NobodyComes<A, F>(cfg: Config<A>, v: View<A, F>, acts: seq<Act<A, F>>, r: nat,
                                             tenant: Option<Str>)
    requires Sane(v) && r < |v.records| && !LetDuring(cfg, v, acts, r)
    ensures LastTenant(cfg, v, acts, r, tenant) in {None, tenant}
    decreases acts
  {
    hide Step, Sane, Lets, Takes, LowerAll;
    if acts != [] {
      StepIsSane(cfg, v, acts[0]);
      LetAtIs(cfg, v, acts[0], r);
      NobodyComes(cfg, Step(cfg, v, acts[0]).0, acts[1..], r, TenantAfter(cfg, v, acts[0], r, tenant));
    }
  }

  /** So as long as no step lets the record again, the domain that asked is the only one that its result can reach. */
  lemma ReachesAskerOrNobody<A, F>(cfg: Config<A>, v: View<A, F>, acts: seq<Act<A, F>>, q: nat, name: Str)
    requires Sane(v) && Outstanding(cfg, v, acts, q) && name in v.index && v.index[name] == v.queries[q].record
    requires !LetDuring(cfg, v, acts, v.queries[q].record)
    ensures var w := RunOf(cfg, v, acts).0;
            && q in w.queries
            && forall n :: n in w.index && w.index[n] == w.queries[q].record ==> n == name
  {
    hide Step, LetDuring, RunOf, LastTenant;
    ReachesOtherDomainIff(cfg, v, acts, q, name);
    QueriesBelow(v);
    NobodyComes(cfg, v, acts, v.queries[q].record, Some(name));
    hide Sane;
  }
}
