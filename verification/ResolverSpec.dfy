/**
 The dynamic resolver as a machine: a table of lower-cased domains, each standing in a record with its addresses and
 the callbacks that wait for them, the queries that are under way, and the drains in progress. A drain calls those
 who wait at a record one after the other; what a callback does is open: between its call and its return any steps
 may be taken, further drains included, so every run of the module with every behaviour of its callbacks is a
 sequence of steps. Records are recycled while queries for them are under way and while they are being drained.

 Times are counted in steps. They are there to state what a run promises; nothing the machine does depends on them.
 */
module ResolverSpec {
  import opened Bytes

  const MAX_DOMAIN_LEN: nat := 128
  const MAX_ADDRS: nat := 8

  // ----- the state

  /** Who waits, since when, and whether the record was being drained then. */
  datatype Wait<+F> = Wait(callback: F, since: nat, drained: bool)

  /**
   `naddrs` is zero while the domain is unresolved; an address that was never set is None. The times: of being let
   to its present domain, of last getting addresses, of the last beginning of a drain; zero is never.
   */
  datatype Record<+A, +F> = Record(naddrs: nat, addrs: seq<Option<A>>, waiting: seq<Wait<F>>,
                                   letAt: nat, setAt: nat, drainAt: nat)

  /** A query under way refers to the record it was asked for. */
  datatype Query = Query(record: nat, asked: nat)

  /** Why a record is drained. With answers: those given, the one being copied, the one handed out next. */
  datatype Why<+A> = Deletion | Failure | Answers(given: seq<A>, i: nat, n: nat)

  /** A drain in progress; `busy` while a callback it called runs. */
  datatype Frame<+A> = Frame(record: nat, why: Why<A>, began: nat, busy: bool)

  /** What the loop over the addresses must not do and does not check. */
  datatype Fault = DividesByZero | ReadsBeyond

  datatype View<A, F> = View(
    clock: nat,
    index: map<Str, nat>,
    records: seq<Record<A, F>>,
    free: seq<nat>, spare: nat,
    queries: map<nat, Query>,
    nextQuery: nat,
    stack: seq<Frame<A>>,
    fault: Option<Fault>)

  /** `isAddress` is the test for literal addresses, of which the module asks nothing more. */
  datatype Config<!A> = Config(closed: bool, buckets: nat, isAddress: Str -> Option<A>)

  /**
   Steps. `room` and `roomCtx` say whether there is memory for a new record and a new context, `pick` is the random
   number. Loop is the condition of the innermost draining loop and what follows it; Return is a callback's return.
   */
  datatype Act<A, F> =
    | Add(name: Str, room: bool)
    | Del(name: Str)
    | Start(name: Str, callback: F, room: bool, roomCtx: bool, pick: nat)
    | Ask(name: Str)
    | Result(query: nat, addrs: seq<A>, pick: nat)
    | Loop(pick: nat)
    | Return

  datatype Answer<+A> = Nothing | Own(addr: Option<A>)

  datatype Call<+A, +F> = Call(callback: F, answer: Answer<A>)

  function Initial<A, F>(): View<A, F> {
    View(1, map[], [], [], 0, map[], 0, [], None)
  }

  // ----- names

  function Lower(c: Byte): Byte {
    if 65 <= c <= 90 then c + 32 else c
  }

  function LowerAll(s: Str): Str {
    seq(|s|, i requires 0 <= i < |s| => Lower(s[i]))
  }

  /** The names the table takes. */
  predicate Takes<A>(cfg: Config<A>, name: Str) {
    name != [] && cfg.isAddress(name).None? && !cfg.closed && |name| <= MAX_DOMAIN_LEN
  }

  // ----- the steps

  function NoAddrs<A>(): (s: seq<Option<A>>)
    ensures |s| == MAX_ADDRS
  {
    seq(MAX_ADDRS, _ => None)
  }

  function Top<A, F>(v: View<A, F>): Frame<A>
    requires v.stack != []
  {
    v.stack[|v.stack| - 1]
  }

  /** Callers and callbacks have control. */
  predicate Idle<A, F>(v: View<A, F>) {
    v.fault.None? && (v.stack == [] || Top(v).busy)
  }

  /** A draining loop has control, on a record. */
  predicate Looping<A, F>(v: View<A, F>) {
    v.fault.None? && v.stack != [] && !Top(v).busy && Top(v).record < |v.records|
  }

  /** A callback that was called by a draining loop has control. */
  predicate InCallback<A, F>(v: View<A, F>) {
    v.fault.None? && v.stack != [] && Top(v).busy && Top(v).record < |v.records|
  }

  predicate Enabled<A, F>(v: View<A, F>, a: Act<A, F>) {
    match a
    case Loop(_) => Looping(v)
    case Return => InCallback(v)
    case _ => Idle(v)
  }

  function WithRecord<A, F>(v: View<A, F>, r: nat, rec: Record<A, F>): View<A, F>
    requires r < |v.records|
  {
    v.(records := v.records[r := rec])
  }

  function WithTop<A, F>(v: View<A, F>, f: Frame<A>): View<A, F>
    requires v.stack != []
  {
    v.(stack := v.stack[|v.stack| - 1 := f])
  }

  /** The times of the record outlive its domains. */
  function Cleared<A, F>(now: nat, setAt: nat, drainAt: nat): Record<A, F> {
    Record(0, NoAddrs(), [], now, setAt, drainAt)
  }

  /** A cleared record for a new domain: the last one freed, or a new one if there is room. */
  function Opened<A, F>(v: View<A, F>, key: Str, room: bool): Option<View<A, F>> {
    if v.free != [] && v.free[0] < |v.records| then
      var r := v.free[0];
      Some(WithRecord(v, r, Cleared(v.clock, v.records[r].setAt, v.records[r].drainAt)).(index := v.index[key := r],
                                                                                         free := v.free[1..]))
    else if v.free == [] && room then
      Some(v.(index := v.index[key := |v.records|], records := v.records + [Cleared(v.clock, 0, 0)]))
    else None
  }

  function AddStep<A, F>(cfg: Config<A>, v: View<A, F>, name: Str, room: bool): View<A, F> {
    var key := LowerAll(name);
    if !Takes(cfg, name) || key in v.index then v
    else
      var o := Opened(v, key, room);
      if o.Some? then o.value else v
  }

  /** A drain of a record begins. */
  function Drain<A, F>(v: View<A, F>, r: nat, why: Why<A>): View<A, F>
    requires r < |v.records|
  {
    WithRecord(v, r, v.records[r].(drainAt := v.clock)).(stack := v.stack + [Frame(r, why, v.clock, false)])
  }

  /** The domain leaves the table; its record is free only when all who wait have been told. */
  function DelStep<A, F>(cfg: Config<A>, v: View<A, F>, name: Str): View<A, F> {
    var key := LowerAll(name);
    if !Takes(cfg, name) || key !in v.index || v.index[key] >= |v.records| then v
    else Drain(v.(index := v.index - {key}), v.index[key], Deletion)
  }

  function Asked<A, F>(v: View<A, F>, r: nat): View<A, F> {
    v.(queries := v.queries[v.nextQuery := Query(r, v.clock)], nextQuery := v.nextQuery + 1)
  }

  ghost predicate BeingDrained<A, F>(v: View<A, F>, r: nat) {
    exists i :: 0 <= i < |v.stack| && v.stack[i].record == r
  }

  /** A context is taken, the callback waits, a query is asked. */
  ghost function Waiting<A, F>(v: View<A, F>, r: nat, callback: F): View<A, F>
    requires r < |v.records|
  {
    var rec := v.records[r];
    var w := Wait(callback, v.clock, BeingDrained(v, r));
    Asked(WithRecord(v, r, rec.(waiting := [w] + rec.waiting)).(spare := if v.spare > 0 then v.spare - 1 else 0), r)
  }

  /** A domain that is new, or not resolved yet, makes the callback wait; failures call it at once. */
  ghost function StartStep<A, F>(cfg: Config<A>, v: View<A, F>, name: Str, callback: F, room: bool, roomCtx: bool,
                                 pick: nat)
      : (View<A, F>, seq<Call<A, F>>)
  {
    var key := LowerAll(name);
    if name == [] then (v, [])
    else if cfg.isAddress(name).Some? then (v, [Call(callback, Own(cfg.isAddress(name)))])
    else if !Takes(cfg, name) then (v, [Call(callback, Nothing)])
    else
      var w := AddStep(cfg, v, name, room);
      if key !in w.index || w.index[key] >= |w.records| then (w, [Call(callback, Nothing)])
      else
        var rec := w.records[w.index[key]];
        if 0 < rec.naddrs <= |rec.addrs| then (w, [Call(callback, Own(rec.addrs[pick % rec.naddrs]))])
        else if w.spare == 0 && !roomCtx then (w, [Call(callback, Nothing)])
        else (Waiting(w, w.index[key], callback), [])
  }

  /** The timer asks again for every domain of the table, one by one. */
  function AskStep<A, F>(v: View<A, F>, name: Str): View<A, F> {
    if name in v.index then Asked(v, v.index[name]) else v
  }

  /** A result comes for whatever record the query refers to. */
  function ResultStep<A, F>(v: View<A, F>, query: nat, addrs: seq<A>, pick: nat): View<A, F> {
    if query !in v.queries || v.queries[query].record >= |v.records| then v
    else
      var r := v.queries[query].record;
      var w := v.(queries := v.queries - {query});
      if addrs == [] then Drain(w, r, Failure)
      else
        var n := Min(|addrs|, MAX_ADDRS);
        var rec := w.records[r];
        var copied := if rec.addrs == [] then [] else rec.addrs[0 := Some(addrs[0])];
        Drain(WithRecord(w, r, rec.(naddrs := n, addrs := copied, setAt := v.clock)), r, Answers(addrs, 0, pick % n))
  }

  /** What the callback that is called next is called with. */
  function Told<A, F>(v: View<A, F>): Answer<A>
    requires Looping(v)
  {
    var rec := v.records[Top(v).record];
    match Top(v).why
    case Answers(_, _, n) => if n < |rec.addrs| then Own(rec.addrs[n]) else Nothing
    case _ => Nothing
  }

  function Popped<A, F>(v: View<A, F>): View<A, F>
    requires v.stack != []
  {
    v.(stack := v.stack[..|v.stack| - 1])
  }

  /** The loop calls the one who came last, or ends; then a deletion frees the record, answers are copied on. */
  function LoopStep<A, F>(v: View<A, F>, pick: nat): (View<A, F>, seq<Call<A, F>>)
    requires Looping(v)
  {
    var f := Top(v);
    var rec := v.records[f.record];
    if rec.waiting != [] then
      (WithTop(WithRecord(v, f.record, rec.(waiting := rec.waiting[1..])), f.(busy := true)),
       [Call(rec.waiting[0].callback, Told(v))])
    else
      (match f.why
       case Deletion => Popped(v).(free := [f.record] + v.free)
       case Failure => Popped(v)
       case Answers(given, i, _) =>
         if i + 1 >= rec.naddrs then Popped(v)
         else if i + 1 >= |given| || i + 1 >= |rec.addrs| then v.(fault := Some(ReadsBeyond))
         else
           WithTop(WithRecord(v, f.record, rec.(addrs := rec.addrs[i + 1 := Some(given[i + 1])])),
                   f.(why := Answers(given, i + 1, pick % rec.naddrs))),
       [])
  }

  /** The context is put back; after an answer the next address is chosen. */
  function ReturnStep<A, F>(v: View<A, F>): View<A, F>
    requires InCallback(v)
  {
    var f := Top(v);
    var w := v.(spare := v.spare + 1);
    match f.why
    case Answers(given, i, n) =>
      var naddrs := v.records[f.record].naddrs;
      if naddrs == 0 then WithTop(w, f.(busy := false)).(fault := Some(DividesByZero))
      else WithTop(w, f.(why := Answers(given, i, (n + 1) % naddrs), busy := false))
    case _ => WithTop(w, f.(busy := false))
  }

  ghost function Effect<A, F>(cfg: Config<A>, v: View<A, F>, a: Act<A, F>): (View<A, F>, seq<Call<A, F>>)
    requires Enabled(v, a)
  {
    match a
    case Add(name, room) => (AddStep(cfg, v, name, room), [])
    case Del(name) => (DelStep(cfg, v, name), [])
    case Start(name, callback, room, roomCtx, pick) => StartStep(cfg, v, name, callback, room, roomCtx, pick)
    case Ask(name) => (AskStep(v, name), [])
    case Result(query, addrs, pick) => (ResultStep(v, query, addrs, pick), [])
    case Loop(pick) => LoopStep(v, pick)
    case Return => (ReturnStep(v), [])
  }

  /** A step that is not enabled is no step. */
  ghost function Step<A, F>(cfg: Config<A>, v: View<A, F>, a: Act<A, F>): (View<A, F>, seq<Call<A, F>>) {
    if Enabled(v, a) then
      var (w, calls) := Effect(cfg, v, a);
      (w.(clock := v.clock + 1), calls)
    else (v, [])
  }

  /** gethostbyname reads. */
  function HostOf<A, F>(cfg: Config<A>, v: View<A, F>, name: Str, pick: nat): Option<A> {
    var key := LowerAll(name);
    if cfg.isAddress(name).Some? then cfg.isAddress(name)
    else if cfg.closed || |name| > MAX_DOMAIN_LEN || key !in v.index || v.index[key] >= |v.records| then None
    else
      var rec := v.records[v.index[key]];
      if 0 < rec.naddrs <= |rec.addrs| then rec.addrs[pick % rec.naddrs] else None
  }

  // ----- what every reachable state has

  ghost predicate Closing<A>(stack: seq<Frame<A>>, r: nat) {
    exists i :: 0 <= i < |stack| && stack[i].record == r && stack[i].why.Deletion?
  }

  ghost predicate Rented(index: map<Str, nat>, r: nat) {
    exists n :: n in index && index[n] == r
  }

  /** Every record is free, let to one domain, or on its way from one to the other. */
  ghost predicate Placed<A>(index: map<Str, nat>, free: seq<nat>, stack: seq<Frame<A>>, n: nat) {
    && (forall r :: r in free ==> r < n)
    && (forall i, j :: 0 <= i < j < |free| ==> free[i] != free[j])
    && (forall k :: k in index ==> index[k] < n && index[k] !in free)
    && (forall k, l :: k in index && l in index && index[k] == index[l] ==> k == l)
    && (forall r :: Closing(stack, r) ==> r !in free && !Rented(index, r))
    && (forall i, j :: 0 <= i < j < |stack| && stack[i].why.Deletion? && stack[j].why.Deletion? ==>
          stack[i].record != stack[j].record)
    && (forall r :: 0 <= r < n ==> r in free || Rented(index, r) || Closing(stack, r))
  }

  /** Drains began one inside the other; all but the innermost wait for a callback. */
  ghost predicate Nested<A>(stack: seq<Frame<A>>, n: nat, clock: nat) {
    && (forall i :: 0 <= i < |stack| ==> stack[i].record < n && 0 < stack[i].began < clock)
    && (forall i :: 0 <= i < |stack| - 1 ==> stack[i].busy)
    && (forall i, j :: 0 <= i < j < |stack| ==> stack[i].began < stack[j].began)
  }

  ghost predicate RecordOk<A, F>(rec: Record<A, F>, clock: nat) {
    && |rec.addrs| == MAX_ADDRS && rec.naddrs <= MAX_ADDRS
    && 0 < rec.letAt < clock && rec.setAt < clock && rec.drainAt < clock
    && (rec.naddrs == 0 <==> rec.setAt < rec.letAt)
  }

  ghost predicate FrameOk<A, F>(f: Frame<A>, rec: Record<A, F>, running: bool) {
    && f.began <= rec.drainAt
    && (f.why.Answers? ==>
          && f.why.i < |f.why.given| && f.why.i < MAX_ADDRS && f.began <= rec.setAt
          && (f.began == rec.setAt ==> rec.naddrs == 0 || rec.naddrs == Min(|f.why.given|, MAX_ADDRS))
          && (running && !f.busy ==> f.why.n < rec.naddrs))
  }

  ghost predicate BegunAt<A>(stack: seq<Frame<A>>, r: nat, t: nat) {
    exists i :: 0 <= i < |stack| && stack[i].record == r && stack[i].began == t
  }

  ghost predicate BegunBefore<A>(stack: seq<Frame<A>>, r: nat, t: nat) {
    exists i :: 0 <= i < |stack| && stack[i].record == r && stack[i].began < t
  }

  /**
   Who came after a drain of the record began that is still in progress knows it; and unless the last drain to
   begin is still in progress, all who wait came after it began.
   */
  ghost predicate WaitersOk<A, F>(r: nat, rec: Record<A, F>, stack: seq<Frame<A>>, clock: nat) {
    && (forall w :: w in rec.waiting ==> 0 < w.since < clock)
    && (forall w :: w in rec.waiting && BegunBefore(stack, r, w.since) ==> w.drained)
    && (BegunAt(stack, r, rec.drainAt) || forall w :: w in rec.waiting ==> rec.drainAt < w.since)
  }

  ghost predicate FreeIdle<A, F>(free: seq<nat>, records: seq<Record<A, F>>) {
    forall r :: r in free && r < |records| ==> records[r].waiting == []
  }

  ghost predicate RecordsOk<A, F>(records: seq<Record<A, F>>, stack: seq<Frame<A>>, clock: nat) {
    forall r :: 0 <= r < |records| ==> RecordOk(records[r], clock) && WaitersOk(r, records[r], stack, clock)
  }

  ghost predicate FramesOk<A, F>(records: seq<Record<A, F>>, stack: seq<Frame<A>>, running: bool) {
    forall i :: 0 <= i < |stack| ==> stack[i].record < |records| && FrameOk(stack[i], records[stack[i].record], running)
  }

  ghost predicate QueriesOk(queries: map<nat, Query>, next: nat, n: nat, clock: nat) {
    forall q :: q in queries ==> q < next && queries[q].record < n && queries[q].asked < clock
  }

  ghost predicate SaneAt<A, F>(v: View<A, F>, now: nat) {
    && Placed(v.index, v.free, v.stack, |v.records|)
    && Nested(v.stack, |v.records|, now)
    && FreeIdle(v.free, v.records)
    && RecordsOk(v.records, v.stack, now)
    && FramesOk(v.records, v.stack, v.fault.None?)
    && QueriesOk(v.queries, v.nextQuery, |v.records|, now)
  }

  ghost predicate Sane<A, F>(v: View<A, F>) {
    v.clock > 0 && SaneAt(v, v.clock)
  }

  // ----- one record changes, or the stack

  /** The record `r` is replaced; who drains it still may. */
  lemma RecordsWith<A, F>(records: seq<Record<A, F>>, stack: seq<Frame<A>>, clock: nat, r: nat, rec: Record<A, F>)
    requires RecordsOk(records, stack, clock) && r < |records|
    requires RecordOk(rec, clock + 1) && WaitersOk(r, rec, stack, clock + 1)
    ensures RecordsOk(records[r := rec], stack, clock + 1)
  {
    forall s | 0 <= s < |records| && s != r
      ensures RecordOk(records[s], clock + 1) && WaitersOk(s, records[s], stack, clock + 1)
    {
    }
  }

  lemma RecordsLater<A, F>(records: seq<Record<A, F>>, stack: seq<Frame<A>>, clock: nat)
    requires RecordsOk(records, stack, clock)
    ensures RecordsOk(records, stack, clock + 1)
  {
  }

  lemma FramesWith<A, F>(records: seq<Record<A, F>>, stack: seq<Frame<A>>, running: bool, r: nat, rec: Record<A, F>)
    requires FramesOk(records, stack, running) && r < |records|
    requires records[r].drainAt <= rec.drainAt
    requires forall i :: 0 <= i < |stack| && stack[i].record == r && stack[i].why.Answers? ==>
               && stack[i].began <= rec.setAt && (running && !stack[i].busy ==> stack[i].why.n < rec.naddrs)
               && (stack[i].began == rec.setAt ==>
                     rec.naddrs == 0 || rec.naddrs == Min(|stack[i].why.given|, MAX_ADDRS))
    ensures FramesOk(records[r := rec], stack, running)
  {
  }

  /** A frame more, on a record that is touched at the same time. */
  lemma RecordsPushed<A, F>(records: seq<Record<A, F>>, stack: seq<Frame<A>>, clock: nat, f: Frame<A>,
                            rec: Record<A, F>)
    requires RecordsOk(records, stack, clock) && f.record < |records| && f.began == clock == rec.drainAt
    requires RecordOk(rec, clock + 1) && rec.waiting == records[f.record].waiting
    ensures RecordsOk(records[f.record := rec], stack + [f], clock + 1)
  {
    var stack', records' := stack + [f], records[f.record := rec];
    forall s | 0 <= s < |records'|
      ensures RecordOk(records'[s], clock + 1) && WaitersOk(s, records'[s], stack', clock + 1)
    {
      PushedFrames(stack, f, s);
      if s == f.record {
        assert stack'[|stack|] == f;
      }
    }
  }

  lemma PushedFrames<A>(stack: seq<Frame<A>>, f: Frame<A>, s: nat)
    ensures forall t :: BegunAt(stack, s, t) ==> BegunAt(stack + [f], s, t)
    ensures forall t :: BegunBefore(stack + [f], s, t) ==> BegunBefore(stack, s, t) || (f.record == s && f.began < t)
  {
    forall t | BegunAt(stack, s, t) ensures BegunAt(stack + [f], s, t) {
      var i :| 0 <= i < |stack| && stack[i].record == s && stack[i].began == t;
      assert (stack + [f])[i] == stack[i];
    }
  }

  /** The innermost drain ends when nobody waits at its record. */
  lemma RecordsPopped<A, F>(records: seq<Record<A, F>>, stack: seq<Frame<A>>, clock: nat)
    requires RecordsOk(records, stack, clock) && stack != []
    requires var r := stack[|stack| - 1].record; r < |records| && records[r].waiting == []
    ensures RecordsOk(records, stack[..|stack| - 1], clock + 1)
  {
    var k := |stack| - 1;
    forall s | 0 <= s < |records|
      ensures RecordOk(records[s], clock + 1) && WaitersOk(s, records[s], stack[..k], clock + 1)
    {
      if s != stack[k].record {
        forall t | BegunAt(stack, s, t) ensures BegunAt(stack[..k], s, t) {
          var i :| 0 <= i < |stack| && stack[i].record == s && stack[i].began == t;
          assert stack[..k][i] == stack[i];
        }
        forall t | BegunBefore(stack[..k], s, t) ensures BegunBefore(stack, s, t) {
          var i :| 0 <= i < k && stack[..k][i].record == s && stack[..k][i].began < t;
          assert stack[i].record == s;
        }
      }
    }
  }

  /** The innermost frame changes but for its record and its beginning. */
  lemma RecordsTopped<A, F>(records: seq<Record<A, F>>, stack: seq<Frame<A>>, clock: nat, f: Frame<A>)
    requires RecordsOk(records, stack, clock) && stack != []
    requires var g := stack[|stack| - 1]; f.record == g.record && f.began == g.began
    ensures RecordsOk(records, stack[|stack| - 1 := f], clock)
  {
    var stack' := stack[|stack| - 1 := f];
    forall s, t ensures BegunAt(stack', s, t) <==> BegunAt(stack, s, t) {
      assert forall i :: 0 <= i < |stack| ==> stack'[i].record == stack[i].record && stack'[i].began == stack[i].began;
      if i :| 0 <= i < |stack| && stack[i].record == s && stack[i].began == t {
        assert stack'[i].record == s;
      }
    }
    forall s, t ensures BegunBefore(stack', s, t) <==> BegunBefore(stack, s, t) {
      assert forall i :: 0 <= i < |stack| ==> stack'[i].record == stack[i].record && stack'[i].began == stack[i].began;
      if i :| 0 <= i < |stack| && stack[i].record == s && stack[i].began < t {
        assert stack'[i].record == s;
      }
    }
  }

  lemma PlacedReused<A>(index: map<Str, nat>, free: seq<nat>, stack: seq<Frame<A>>, n: nat, key: Str)
    requires Placed(index, free, stack, n) && key !in index && free != []
    ensures Placed(index[key := free[0]], free[1..], stack, n)
  {
    var r, index', free' := free[0], index[key := free[0]], free[1..];
    assert free == [r] + free';
    assert forall s :: s in free <==> s == r || s in free';
    assert r !in free';
    assert index'[key] == r;
    forall s ensures Rented(index', s) <==> s == r || Rented(index, s) {
      if Rented(index, s) {
        var k :| k in index && index[k] == s;
        assert index'[k] == s;
      }
    }
  }

  lemma PlacedNew<A>(index: map<Str, nat>, stack: seq<Frame<A>>, n: nat, key: Str)
    requires Placed(index, [], stack, n) && key !in index
    requires forall i :: 0 <= i < |stack| ==> stack[i].record < n
    ensures Placed(index[key := n], [], stack, n + 1)
  {
    var index' := index[key := n];
    assert index'[key] == n;
    forall s ensures Rented(index', s) <==> s == n || Rented(index, s) {
      if Rented(index, s) {
        var k :| k in index && index[k] == s;
        assert index'[k] == s;
      }
    }
  }

  lemma ClosingPushed<A>(stack: seq<Frame<A>>, f: Frame<A>)
    ensures forall r :: Closing(stack + [f], r) <==> Closing(stack, r) || (r == f.record && f.why.Deletion?)
  {
    var stack' := stack + [f];
    forall r ensures Closing(stack', r) <==> Closing(stack, r) || (r == f.record && f.why.Deletion?) {
      assert stack'[|stack|] == f;
      if Closing(stack, r) {
        var i :| 0 <= i < |stack| && stack[i].record == r && stack[i].why.Deletion?;
        assert stack'[i] == stack[i];
      }
    }
  }

  lemma PlacedPushed<A>(index: map<Str, nat>, free: seq<nat>, stack: seq<Frame<A>>, n: nat, f: Frame<A>)
    requires Placed(index, free, stack, n) && !f.why.Deletion?
    ensures Placed(index, free, stack + [f], n)
  {
    ClosingPushed(stack, f);
    hide Rented;
  }

  lemma PlacedClosed<A>(index: map<Str, nat>, free: seq<nat>, stack: seq<Frame<A>>, n: nat, key: Str, f: Frame<A>)
    requires Placed(index, free, stack, n) && key in index && f.record == index[key] && f.why.Deletion?
    ensures Placed(index - {key}, free, stack + [f], n)
  {
    var index', r := index - {key}, index[key];
    ClosingPushed(stack, f);
    forall s ensures Rented(index', s) <==> s != r && Rented(index, s) {
      if Rented(index, s) && s != r {
        var k :| k in index && index[k] == s;
        assert index'[k] == s;
      }
    }
    assert Rented(index, r);
    forall i | 0 <= i < |stack| && stack[i].why.Deletion? ensures stack[i].record != r {
      assert Closing(stack, stack[i].record);
    }
    hide Closing;
  }

  lemma ClosingPopped<A>(stack: seq<Frame<A>>)
    requires stack != []
    ensures var f := stack[|stack| - 1];
            forall r :: Closing(stack, r) <==> Closing(stack[..|stack| - 1], r) || (r == f.record && f.why.Deletion?)
  {
    var k := |stack| - 1;
    assert stack == stack[..k] + [stack[k]];
    ClosingPushed(stack[..k], stack[k]);
  }

  /** The innermost drain ends; after a deletion the record is free. */
  lemma PlacedPopped<A>(index: map<Str, nat>, free: seq<nat>, stack: seq<Frame<A>>, n: nat)
    requires Placed(index, free, stack, n) && stack != [] && stack[|stack| - 1].record < n
    ensures var f := stack[|stack| - 1];
            Placed(index, if f.why.Deletion? then [f.record] + free else free, stack[..|stack| - 1], n)
  {
    var k := |stack| - 1;
    var f := stack[k];
    ClosingPopped(stack);
    if f.why.Deletion? {
      assert Closing(stack, f.record);
      forall i | 0 <= i < k && stack[..k][i].why.Deletion? ensures stack[..k][i].record != f.record {
        assert stack[..k][i] == stack[i];
      }
      assert !Closing(stack[..k], f.record);
    }
    hide Closing, Rented;
  }

  lemma PlacedTopped<A>(index: map<Str, nat>, free: seq<nat>, stack: seq<Frame<A>>, n: nat, f: Frame<A>)
    requires Placed(index, free, stack, n) && stack != []
    requires var g := stack[|stack| - 1]; f.record == g.record && f.why.Deletion? == g.why.Deletion?
    ensures Placed(index, free, stack[|stack| - 1 := f], n)
  {
    var stack' := stack[|stack| - 1 := f];
    forall r ensures Closing(stack', r) <==> Closing(stack, r) {
      if i :| 0 <= i < |stack| && stack[i].record == r && stack[i].why.Deletion? {
        assert stack'[i].record == r && stack'[i].why.Deletion?;
      }
    }
    hide Rented;
  }

  // ----- every step keeps the state sane

  lemma SaneLater<A, F>(v: View<A, F>, now: nat)
    requires SaneAt(v, now)
    ensures SaneAt(v, now + 1)
  {
    hide Placed, WaitersOk, FrameOk;
    RecordsLater(v.records, v.stack, now);
  }

  lemma ReusedIsSane<A, F>(v: View<A, F>, key: Str)
    requires Sane(v) && key !in v.index && Idle(v) && v.free != []
    ensures var o := Opened(v, key, false);
            o.Some? && SaneAt(o.value, v.clock + 1) && o.value.index.Keys == v.index.Keys + {key}
  {
    hide Placed, WaitersOk, FrameOk, RecordOk;
    var r := v.free[0];
    InPlace(v);
    var rec: Record<A, F> := Cleared(v.clock, v.records[r].setAt, v.records[r].drainAt);
    ClearedOk(v.records[r], rec, r, v.stack, v.clock);
    PlacedReused(v.index, v.free, v.stack, |v.records|, key);
    RecordsWith(v.records, v.stack, v.clock, r, rec);
    AllBusy(v);
    FramesAt(v, r);
    FramesWith(v.records, v.stack, true, r, rec);
  }

  /** The first free record is one, and nobody waits at it. */
  lemma InPlace<A, F>(v: View<A, F>)
    requires Sane(v)
    ensures forall r :: r in v.free ==> r < |v.records| && v.records[r].waiting == []
    ensures forall k :: k in v.index ==> v.index[k] < |v.records| && v.index[k] !in v.free
    ensures v.free != [] ==> v.free[0] in v.free
  {
  }

  lemma ClearedOk<A, F>(was: Record<A, F>, rec: Record<A, F>, r: nat, stack: seq<Frame<A>>, clock: nat)
    requires RecordOk(was, clock) && clock > 0 && rec == Cleared(clock, was.setAt, was.drainAt)
    ensures RecordOk(rec, clock + 1) && WaitersOk(r, rec, stack, clock + 1)
  {
  }

  /** While a caller or a callback has control no loop does. */
  lemma AllBusy<A, F>(v: View<A, F>)
    requires Sane(v) && Idle(v)
    ensures forall i :: 0 <= i < |v.stack| ==> v.stack[i].busy
  {
  }

  lemma BelowBusy<A, F>(v: View<A, F>)
    requires Sane(v)
    ensures forall i :: 0 <= i < |v.stack| - 1 ==> v.stack[i].busy
  {
  }

  /** A record that is being deleted is nobody's. */
  lemma TopIsGone<A, F>(v: View<A, F>)
    requires Sane(v) && v.stack != [] && Top(v).why.Deletion?
    ensures Top(v).record !in v.free && !Rented(v.index, Top(v).record)
  {
    assert Closing(v.stack, Top(v).record);
  }

  lemma BegunEarlier<A, F>(v: View<A, F>)
    requires Sane(v)
    ensures forall i :: 0 <= i < |v.stack| ==> v.stack[i].began < v.clock
  {
  }

  lemma FramesAt<A, F>(v: View<A, F>, r: nat)
    requires Sane(v) && r < |v.records|
    ensures RecordOk(v.records[r], v.clock) && WaitersOk(r, v.records[r], v.stack, v.clock)
    ensures forall i :: 0 <= i < |v.stack| && v.stack[i].record == r ==>
              && v.stack[i].began <= v.records[r].drainAt
              && (v.stack[i].why.Answers? ==>
                    && v.stack[i].began <= v.records[r].setAt
                    && (v.stack[i].began == v.records[r].setAt ==>
                          v.records[r].naddrs == 0 || v.records[r].naddrs == Min(|v.stack[i].why.given|, MAX_ADDRS)))
  {
    hide WaitersOk, RecordOk;
  }

  lemma NewIsSane<A, F>(v: View<A, F>, key: Str)
    requires Sane(v) && key !in v.index && v.free == []
    ensures var o := Opened(v, key, true);
            o.Some? && SaneAt(o.value, v.clock + 1) && o.value.index.Keys == v.index.Keys + {key}
  {
    hide Placed, WaitersOk, FrameOk, RecordOk;
    var n := |v.records|;
    var rec: Record<A, F> := Cleared(v.clock, 0, 0);
    NewRecordOk(rec, n, v.stack, v.clock);
    PlacedNew(v.index, v.stack, n, key);
    RecordsLater(v.records, v.stack, v.clock);
    forall i | 0 <= i < |v.stack| ensures FrameOk(v.stack[i], (v.records + [rec])[v.stack[i].record], v.fault.None?) {
      assert FrameOk(v.stack[i], v.records[v.stack[i].record], v.fault.None?);
    }
  }

  lemma NewRecordOk<A, F>(rec: Record<A, F>, r: nat, stack: seq<Frame<A>>, clock: nat)
    requires clock > 0 && rec == Cleared(clock, 0, 0)
    ensures RecordOk(rec, clock + 1) && WaitersOk(r, rec, stack, clock + 1)
  {
  }

  lemma AddIsSane<A, F>(cfg: Config<A>, v: View<A, F>, name: Str, room: bool)
    requires Sane(v) && Idle(v)
    ensures var w := AddStep(cfg, v, name, room);
            && SaneAt(w, v.clock + 1) && Idle(w) && w.clock == v.clock && w.stack == v.stack && w.spare == v.spare
            && (w.index.Keys == v.index.Keys || (Takes(cfg, name) && w.index.Keys == v.index.Keys + {LowerAll(name)}))
            && forall r :: 0 <= r < |w.records| ==> w.records[r].drainAt < v.clock
  {
    hide SaneAt, LowerAll;
    var key := LowerAll(name);
    SaneLater(v, v.clock);
    DrainedBefore(v);
    if Takes(cfg, name) && key !in v.index {
      if v.free != [] {
        InPlace(v);
        ReusedIsSane(v, key);
      } else if room {
        NewIsSane(v, key);
      }
    }
  }

  lemma DrainedBefore<A, F>(v: View<A, F>)
    requires Sane(v)
    ensures forall r :: 0 <= r < |v.records| ==> v.records[r].drainAt < v.clock
  {
    forall r | 0 <= r < |v.records| ensures v.records[r].drainAt < v.clock {
      FramesAt(v, r);
    }
  }

  /** A drain begins on a record that has just been touched, or not. */
  lemma DrainIsSane<A, F>(v: View<A, F>, w: View<A, F>, r: nat, why: Why<A>)
    requires Sane(v) && Idle(v) && r < |v.records|
    requires |w.records| == |v.records| && w.stack == v.stack && w.clock == v.clock && w.fault == v.fault
    requires w.records == v.records[r := w.records[r]] && w.records[r].waiting == v.records[r].waiting
    requires v.records[r].setAt <= w.records[r].setAt && w.records[r].drainAt == v.records[r].drainAt
    requires RecordOk(w.records[r], v.clock + 1)
    requires w.records[r].setAt == v.records[r].setAt ==> w.records[r].naddrs == v.records[r].naddrs
    requires w.records[r].setAt == v.records[r].setAt || w.records[r].setAt == v.clock
    requires why.Answers? ==>
               && why.i == 0 < |why.given| && why.n < w.records[r].naddrs == Min(|why.given|, MAX_ADDRS)
               && w.records[r].setAt == v.clock
    requires Placed(w.index, w.free, v.stack + [Frame(r, why, v.clock, false)], |w.records|)
    requires w.free == v.free && QueriesOk(w.queries, w.nextQuery, |w.records|, v.clock + 1)
    ensures SaneAt(Drain(w, r, why), v.clock + 1)
  {
    hide Placed, WaitersOk, QueriesOk;
    var f := Frame(r, why, v.clock, false);
    var rec := w.records[r].(drainAt := v.clock);
    assert Drain(w, r, why).records == v.records[r := rec];
    AllBusy(v);
    BegunEarlier(v);
    FramesAt(v, r);
    RecordsPushed(v.records, v.stack, v.clock, f, rec);
    FramesWith(v.records, v.stack, true, r, rec);
    hide RecordsOk;
  }

  lemma DelIsSane<A, F>(cfg: Config<A>, v: View<A, F>, name: Str)
    requires Sane(v) && Idle(v)
    ensures SaneAt(DelStep(cfg, v, name), v.clock + 1)
  {
    hide LowerAll, SaneAt;
    var key := LowerAll(name);
    InPlace(v);
    SaneLater(v, v.clock);
    if Takes(cfg, name) && key in v.index {
      var r := v.index[key];
      Pieces(v);
      FramesAt(v, r);
      PlacedClosed(v.index, v.free, v.stack, |v.records|, key, Frame(r, Deletion, v.clock, false));
      assert v.records == v.records[r := v.records[r]];
      DrainIsSane(v, v.(index := v.index - {key}), r, Deletion);
    }
  }

  lemma Pieces<A, F>(v: View<A, F>)
    requires Sane(v)
    ensures Placed(v.index, v.free, v.stack, |v.records|) && Nested(v.stack, |v.records|, v.clock)
    ensures QueriesOk(v.queries, v.nextQuery, |v.records|, v.clock + 1)
    ensures forall q :: q in v.queries ==> v.queries[q].record < |v.records|
  {
  }

  lemma ResultIsSane<A, F>(v: View<A, F>, query: nat, addrs: seq<A>, pick: nat)
    requires Sane(v) && Idle(v)
    ensures SaneAt(ResultStep(v, query, addrs, pick), v.clock + 1)
  {
    hide SaneAt, Placed;
    SaneLater(v, v.clock);
    Pieces(v);
    if query in v.queries {
      var r := v.queries[query].record;
      var w := v.(queries := v.queries - {query});
      FramesAt(v, r);
      if addrs == [] {
        assert v.records == v.records[r := v.records[r]];
        PlacedPushed(v.index, v.free, v.stack, |v.records|, Frame(r, Failure, v.clock, false));
        DrainIsSane(v, w, r, Failure);
      } else {
        var n := Min(|addrs|, MAX_ADDRS);
        var rec := w.records[r];
        var u := WithRecord(w, r, rec.(naddrs := n, addrs := rec.addrs[0 := Some(addrs[0])], setAt := v.clock));
        PlacedPushed(v.index, v.free, v.stack, |v.records|, Frame(r, Answers(addrs, 0, pick % n), v.clock, false));
        DrainIsSane(v, u, r, Answers(addrs, 0, pick % n));
      }
    }
  }

  lemma AskIsSane<A, F>(v: View<A, F>, name: Str)
    requires Sane(v)
    ensures SaneAt(AskStep(v, name), v.clock + 1)
  {
    hide Placed, WaitersOk, RecordsOk, FramesOk;
    InPlace(v);
    SaneLater(v, v.clock);
  }

  /** `v` is what the step has come to so far. */
  lemma WaitingIsSane<A, F>(v: View<A, F>, r: nat, callback: F)
    requires SaneAt(v, v.clock + 1) && r < |v.records| && v.records[r].drainAt < v.clock && v.clock > 0 && r !in v.free
    ensures SaneAt(Waiting(v, r, callback), v.clock + 1)
  {
    hide Placed, RecordsOk, FramesOk, WaitersOk, RecordOk;
    var rec := v.records[r];
    var w := Wait(callback, v.clock, BeingDrained(v, r));
    var now := rec.(waiting := [w] + rec.waiting);
    RecordAt(v.records, v.stack, v.clock + 1, r);
    WaitersMore(v, r, w);
    OneRecord(v.records, v.stack, v.clock + 1, v.fault.None?, r, now);
  }

  lemma RecordAt<A, F>(records: seq<Record<A, F>>, stack: seq<Frame<A>>, clock: nat, r: nat)
    requires RecordsOk(records, stack, clock) && r < |records|
    ensures RecordOk(records[r], clock) && WaitersOk(r, records[r], stack, clock)
  {
  }

  lemma WaitersMore<A, F>(v: View<A, F>, r: nat, w: Wait<F>)
    requires r < |v.records| && WaitersOk(r, v.records[r], v.stack, v.clock + 1) && v.records[r].drainAt < v.clock
    requires w.since == v.clock > 0 && w.drained == BeingDrained(v, r)
    ensures WaitersOk(r, v.records[r].(waiting := [w] + v.records[r].waiting), v.stack, v.clock + 1)
  {
  }

  /** A change of one record that leaves its addresses and times alone. */
  lemma OneRecord<A, F>(records: seq<Record<A, F>>, stack: seq<Frame<A>>, clock: nat, running: bool, r: nat,
                        now: Record<A, F>)
    requires RecordsOk(records, stack, clock) && FramesOk(records, stack, running) && r < |records|
    requires now.(waiting := [], addrs := []) == records[r].(waiting := [], addrs := [])
    requires |now.addrs| == |records[r].addrs|
    requires WaitersOk(r, now, stack, clock)
    ensures RecordsOk(records[r := now], stack, clock) && FramesOk(records[r := now], stack, running)
  {
    hide WaitersOk;
    assert RecordOk(now, clock);
  }

  lemma StartIsSane<A, F>(cfg: Config<A>, v: View<A, F>, a: Act<A, F>)
    requires Sane(v) && Idle(v) && a.Start?
    ensures SaneAt(StartStep(cfg, v, a.name, a.callback, a.room, a.roomCtx, a.pick).0, v.clock + 1)
  {
    hide SaneAt, LowerAll, AddStep, Waiting;
    var key := LowerAll(a.name);
    SaneLater(v, v.clock);
    AddIsSane(cfg, v, a.name, a.room);
    var w := AddStep(cfg, v, a.name, a.room);
    if key in w.index && w.index[key] < |w.records| {
      NotFree(w, key, v.clock + 1);
      WaitingIsSane(w, w.index[key], a.callback);
    }
  }

  lemma NotFree<A, F>(v: View<A, F>, key: Str, now: nat)
    requires SaneAt(v, now) && key in v.index
    ensures v.index[key] !in v.free && v.index[key] < |v.records|
  {
  }

  lemma LoopIsSane<A, F>(v: View<A, F>, pick: nat)
    requires Sane(v) && Looping(v)
    ensures SaneAt(LoopStep(v, pick).0, v.clock + 1)
  {
    hide SaneAt;
    var f := Top(v);
    if v.records[f.record].waiting != [] {
      CallIsSane(v);
    } else {
      match f.why
      case Deletion => EndIsSane(v);
      case Failure => EndIsSane(v);
      case Answers(given, i, _) =>
        if i + 1 >= v.records[f.record].naddrs {
          EndIsSane(v);
        } else if i + 1 >= |given| || i + 1 >= |v.records[f.record].addrs| {
          FaultIsSane(v, v, ReadsBeyond);
        } else {
          CopyIsSane(v, pick);
        }
    }
  }

  lemma FaultIsSane<A, F>(v: View<A, F>, w: View<A, F>, fault: Fault)
    requires Sane(v) && w == v.(spare := w.spare)
    ensures SaneAt(w.(fault := Some(fault)), v.clock + 1)
  {
    hide Placed, WaitersOk, RecordOk;
    SaneLater(v, v.clock);
    forall i | 0 <= i < |v.stack| ensures FrameOk(v.stack[i], v.records[v.stack[i].record], false) {
      assert FrameOk(v.stack[i], v.records[v.stack[i].record], v.fault.None?);
    }
  }

  /** The innermost frame changes, of a record that may have changed with it. */
  lemma TopIsSane<A, F>(v: View<A, F>, w: View<A, F>, f: Frame<A>)
    requires SaneAt(v, v.clock + 1) && v.stack != [] && w.(spare := v.spare) == WithTop(v, f)
    requires f.record == Top(v).record && f.began == Top(v).began && f.why.Deletion? == Top(v).why.Deletion?
    requires f.record < |v.records| && FrameOk(f, v.records[f.record], v.fault.None?)
    ensures SaneAt(w, v.clock + 1)
  {
    hide Placed, RecordsOk;
    PlacedTopped(v.index, v.free, v.stack, |v.records|, f);
    RecordsTopped(v.records, v.stack, v.clock + 1, f);
  }

  lemma TopAt<A, F>(v: View<A, F>)
    requires Sane(v) && v.stack != []
    ensures Top(v).record < |v.records| && FrameOk(Top(v), v.records[Top(v).record], v.fault.None?)
    ensures Top(v).began < v.clock
  {
    hide FrameOk;
  }

  lemma CallIsSane<A, F>(v: View<A, F>)
    requires Sane(v) && Looping(v) && v.records[Top(v).record].waiting != []
    ensures SaneAt(LoopStep(v, 0).0, v.clock + 1)
  {
    hide SaneAt, WaitersOk;
    var f := Top(v);
    var r := f.record;
    var rec := v.records[r];
    var w := WithRecord(v, r, rec.(waiting := rec.waiting[1..]));
    SaneLater(v, v.clock);
    FewerWait(v);
    TopAt(v);
    TopIsSane(w, WithTop(w, f.(busy := true)), f.(busy := true));
  }

  lemma FewerWait<A, F>(v: View<A, F>)
    requires Sane(v) && Looping(v) && v.records[Top(v).record].waiting != []
    ensures var r := Top(v).record;
            SaneAt(WithRecord(v, r, v.records[r].(waiting := v.records[r].waiting[1..])), v.clock + 1)
  {
    hide Placed, RecordsOk, FramesOk, RecordOk;
    var r := Top(v).record;
    var rec := v.records[r];
    var now := rec.(waiting := rec.waiting[1..]);
    SaneLater(v, v.clock);
    RecordAt(v.records, v.stack, v.clock + 1, r);
    assert forall w :: w in now.waiting ==> w in rec.waiting;
    assert WaitersOk(r, now, v.stack, v.clock + 1);
    hide WaitersOk;
    OneRecord(v.records, v.stack, v.clock + 1, v.fault.None?, r, now);
  }

  lemma EndIsSane<A, F>(v: View<A, F>)
    requires Sane(v) && Looping(v) && v.records[Top(v).record].waiting == []
    ensures var f := Top(v);
            SaneAt(Popped(v).(free := if f.why.Deletion? then [f.record] + v.free else v.free), v.clock + 1)
  {
    hide Placed, RecordsOk, FrameOk;
    PlacedPopped(v.index, v.free, v.stack, |v.records|);
    RecordsPopped(v.records, v.stack, v.clock);
  }

  lemma CopyIsSane<A, F>(v: View<A, F>, pick: nat)
    requires Sane(v) && Looping(v) && v.records[Top(v).record].waiting == [] && Top(v).why.Answers?
    requires var f := Top(v);
             var rec := v.records[f.record];
             f.why.i + 1 < rec.naddrs && f.why.i + 1 < |f.why.given| && f.why.i + 1 < |rec.addrs|
    ensures SaneAt(LoopStep(v, pick).0, v.clock + 1)
  {
    hide SaneAt, WaitersOk;
    var f := Top(v);
    var r := f.record;
    var rec := v.records[r];
    var now := rec.(addrs := rec.addrs[f.why.i + 1 := Some(f.why.given[f.why.i + 1])]);
    var w := WithRecord(v, r, now);
    AddrsOnly(v, r, now);
    TopAt(v);
    FramesAt(v, r);
    TopIsSane(w, LoopStep(v, pick).0, f.(why := Answers(f.why.given, f.why.i + 1, pick % rec.naddrs)));
  }

  lemma AddrsOnly<A, F>(v: View<A, F>, r: nat, now: Record<A, F>)
    requires Sane(v) && r < |v.records| && now.(addrs := []) == v.records[r].(addrs := [])
    requires |now.addrs| == |v.records[r].addrs|
    ensures SaneAt(WithRecord(v, r, now), v.clock + 1)
  {
    hide Placed, RecordsOk, FramesOk, RecordOk;
    SaneLater(v, v.clock);
    RecordAt(v.records, v.stack, v.clock + 1, r);
    assert WaitersOk(r, now, v.stack, v.clock + 1);
    hide WaitersOk;
    OneRecord(v.records, v.stack, v.clock + 1, v.fault.None?, r, now);
  }

  lemma ReturnIsSane<A, F>(v: View<A, F>)
    requires Sane(v) && InCallback(v)
    ensures SaneAt(ReturnStep(v), v.clock + 1)
  {
    hide SaneAt;
    SaneLater(v, v.clock);
    TopAt(v);
    var f := Top(v);
    match f.why
    case Answers(given, i, n) =>
      var naddrs := v.records[f.record].naddrs;
      if naddrs == 0 {
        var u := v.(spare := v.spare + 1, fault := Some(DividesByZero));
        FaultIsSane(v, v.(spare := v.spare + 1), DividesByZero);
        TopIsSane(u, ReturnStep(v), f.(busy := false));
      } else {
        TopIsSane(v, ReturnStep(v), f.(why := Answers(given, i, (n + 1) % naddrs), busy := false));
      }
    case _ => TopIsSane(v, ReturnStep(v), f.(busy := false));
  }

  /** Every reachable state is sane: the first one is, and every step keeps it so. */
  lemma InitialIsSane<A, F>()
    ensures Sane(Initial<A, F>())
  {
  }

  lemma StepIsSane<A, F>(cfg: Config<A>, v: View<A, F>, a: Act<A, F>)
    requires Sane(v)
    ensures Sane(Step(cfg, v, a).0)
  {
    hide SaneAt, AddStep, DelStep, StartStep, AskStep, ResultStep, LoopStep, ReturnStep;
    if Enabled(v, a) {
      var w := Effect(cfg, v, a).0;
      assert SaneAt(w, v.clock + 1) by {
        match a
        case Add(name, room) => AddIsSane(cfg, v, name, room);
        case Del(name) => DelIsSane(cfg, v, name);
        case Start(_, _, _, _, _) => StartIsSane(cfg, v, a);
        case Ask(name) => AskIsSane(v, name);
        case Result(query, addrs, pick) => ResultIsSane(v, query, addrs, pick);
        case Loop(pick) => LoopIsSane(v, pick);
        case Return => ReturnIsSane(v);
      }
      TickedIsSane(w, v.clock + 1);
    }
  }

  lemma TickedIsSane<A, F>(v: View<A, F>, now: nat)
    requires SaneAt(v, now)
    ensures SaneAt(v.(clock := now), now)
  {
  }
}
