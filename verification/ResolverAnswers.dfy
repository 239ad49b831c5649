/**
 What the resolver answers: which addresses a domain has when the loops over its results are through, which of them
 callbacks are told, and that upper and lower case in a name are one.
 */
module ResolverAnswers {
  import opened Bytes
  import opened ResolverSpec
  import opened ResolverTheorems

  // ----- the cells of a record while a result is copied into them

  /** The drain hands out addresses of the record. */
  ghost predicate Answering<A, F>(v: View<A, F>, r: nat, x: int) {
    0 <= x < |v.stack| && v.stack[x].record == r && v.stack[x].why.Answers?
  }

  ghost predicate NoneAnswering<A, F>(v: View<A, F>, r: nat) {
    forall x :: !Answering(v, r, x)
  }

  /** Up to the `i`-th the cells hold what was given, behind it what they held before. */
  ghost predicate CopiedTo<A>(addrs: seq<Option<A>>, given: seq<A>, was: seq<Option<A>>, i: int) {
    && |addrs| == MAX_ADDRS && |was| == MAX_ADDRS && i < |given| && i < MAX_ADDRS
    && (forall k :: 0 <= k <= i ==> addrs[k] == Some(given[k]))
    && (forall k :: i < k < MAX_ADDRS && k >= 0 ==> addrs[k] == was[k])
  }

  /** The result `given` is being copied into the record, by one drain, or is there; it held `was` before. */
  ghost predicate Filling<A, F>(v: View<A, F>, r: nat, given: seq<A>, was: seq<Option<A>>) {
    && r < |v.records| && given != [] && v.records[r].naddrs == Min(|given|, MAX_ADDRS)
    && (forall x :: Answering(v, r, x) ==>
          && v.stack[x].why.given == given && v.stack[x].why.i < v.records[r].naddrs
          && CopiedTo(v.records[r].addrs, given, was, v.stack[x].why.i))
    && (forall x, y :: Answering(v, r, x) && Answering(v, r, y) ==> x == y)
    && (NoneAnswering(v, r) ==> CopiedTo(v.records[r].addrs, given, was, v.records[r].naddrs - 1))
  }

  /** Nothing that matters changes. */
  ghost predicate SameCells<A, F>(v: View<A, F>, w: View<A, F>, r: nat) {
    && r < |v.records| && r < |w.records|
    && w.records[r].naddrs == v.records[r].naddrs && w.records[r].addrs == v.records[r].addrs
  }

  /** The same frames answer, in the same places, and are as far. */
  ghost predicate SameAnswers<A, F>(v: View<A, F>, w: View<A, F>, r: nat) {
    && (forall x :: Answering(w, r, x) <==> Answering(v, r, x))
    && (forall x :: Answering(v, r, x) ==>
          w.stack[x].why.given == v.stack[x].why.given && w.stack[x].why.i == v.stack[x].why.i)
  }

  lemma FillingKept<A, F>(v: View<A, F>, w: View<A, F>, r: nat, given: seq<A>, was: seq<Option<A>>)
    requires Filling(v, r, given, was) && SameCells(v, w, r) && SameAnswers(v, w, r)
    ensures Filling(w, r, given, was)
  {
    hide Answering, CopiedTo;
    assert NoneAnswering(w, r) <==> NoneAnswering(v, r);
  }

  lemma SameStack<A, F>(v: View<A, F>, w: View<A, F>, r: nat)
    requires v.stack == w.stack
    ensures SameAnswers(v, w, r)
  {
  }

  lemma OtherPushed<A, F>(v: View<A, F>, w: View<A, F>, r: nat, f: Frame<A>)
    requires w.stack == v.stack + [f] && !(f.record == r && f.why.Answers?)
    ensures SameAnswers(v, w, r)
  {
    forall x ensures Answering(w, r, x) <==> Answering(v, r, x) {
      assert 0 <= x < |v.stack| ==> w.stack[x] == v.stack[x];
      assert x == |v.stack| ==> w.stack[x] == f;
    }
  }

  /** A result comes for a record that no drain hands out addresses of. */
  lemma FillingBegins<A, F>(v: View<A, F>, query: nat, given: seq<A>, pick: nat)
    requires Sane(v) && Idle(v) && query in v.queries && given != []
    requires v.queries[query].record < |v.records| && NoneAnswering(v, v.queries[query].record)
    ensures var r := v.queries[query].record;
            Filling(ResultStep(v, query, given, pick), r, given, v.records[r].addrs)
  {
    var r := v.queries[query].record;
    RecordAt(v.records, v.stack, v.clock, r);
    hide Sane, NoneAnswering;
    var w := ResultStep(v, query, given, pick);
    var f := Frame(r, Answers(given, 0, pick % Min(|given|, MAX_ADDRS)), v.clock, false);
    assert w.stack == v.stack + [f];
    forall x | 0 <= x < |v.stack| ensures !Answering(w, r, x) {
      NoneIs(v, r, x);
      assert w.stack[x] == v.stack[x];
    }
    assert w.stack[|v.stack|] == f && Answering(w, r, |v.stack|);
    NoneIs(w, r, |v.stack|);
  }

  lemma NoneIs<A, F>(v: View<A, F>, r: nat, x: int)
    ensures NoneAnswering(v, r) ==> !Answering(v, r, x)
  {
  }

  // ----- a step that neither lets the record nor gives it addresses

  lemma AddKeepsCells<A, F>(cfg: Config<A>, v: View<A, F>, a: Act<A, F>, r: nat)
    requires Sane(v) && Enabled(v, a) && (a.Add? || a.Start?) && r < |v.records| && !Lets(cfg, v, a, r)
    ensures var w := AddStep(cfg, v, a.name, a.room); SameCells(v, w, r) && w.stack == v.stack
  {
    AddToRecord(cfg, v, a, r);
    hide LowerAll, Sane;
  }

  lemma StartKeepsCells<A, F>(cfg: Config<A>, v: View<A, F>, a: Act<A, F>, r: nat)
    requires Sane(v) && Enabled(v, a) && a.Start? && r < |v.records| && !Lets(cfg, v, a, r)
    ensures var w := StartStep(cfg, v, a.name, a.callback, a.room, a.roomCtx, a.pick).0;
            SameCells(v, w, r) && w.stack == v.stack
  {
    AddKeepsCells(cfg, v, a, r);
    assert !Takes(cfg, a.name) ==> AddStep(cfg, v, a.name, a.room) == v;
    hide LowerAll, Sane, AddStep;
  }

  lemma ResultKeepsCells<A, F>(v: View<A, F>, query: nat, addrs: seq<A>, pick: nat, r: nat)
    requires Idle(v) && r < |v.records| && !Sets(v, Result(query, addrs, pick), r)
    ensures var w := ResultStep(v, query, addrs, pick); SameCells(v, w, r) && SameAnswers(v, w, r)
  {
    if query in v.queries && v.queries[query].record < |v.records| {
      var d := v.queries[query].record;
      var w := v.(queries := v.queries - {query});
      var f := Frame(d, if addrs == [] then Failure else Answers(addrs, 0, pick % Min(|addrs|, MAX_ADDRS)), v.clock,
                     false);
      OtherPushed(v, ResultStep(v, query, addrs, pick), r, f);
    } else {
      SameStack(v, v, r);
    }
  }

  /** The top frame changes, but for its record and how far it is. */
  lemma TopKeepsAnswers<A, F>(v: View<A, F>, w: View<A, F>, r: nat)
    requires v.stack != [] && |w.stack| == |v.stack| && w.stack == v.stack[|v.stack| - 1 := Top(w)]
    requires Top(w).record == Top(v).record && Top(w).why.Answers? == Top(v).why.Answers?
    requires Top(v).why.Answers? ==> Top(w).why.given == Top(v).why.given && Top(w).why.i == Top(v).why.i
    ensures SameAnswers(v, w, r)
  {
  }

  lemma ReturnKeepsCells<A, F>(v: View<A, F>, r: nat)
    requires InCallback(v) && r < |v.records|
    ensures SameCells(v, ReturnStep(v), r) && SameAnswers(v, ReturnStep(v), r)
  {
    TopKeepsAnswers(v, ReturnStep(v), r);
  }

  lemma CallKeepsCells<A, F>(v: View<A, F>, pick: nat, r: nat)
    requires Looping(v) && r < |v.records| && v.records[Top(v).record].waiting != []
    ensures var w := LoopStep(v, pick).0; SameCells(v, w, r) && SameAnswers(v, w, r)
  {
    hide Told;
    TopKeepsAnswers(v, LoopStep(v, pick).0, r);
  }

  /** A loop that ends is through with all addresses. */
  lemma EndFills<A, F>(v: View<A, F>, w: View<A, F>, r: nat, given: seq<A>, was: seq<Option<A>>)
    requires Filling(v, r, given, was) && v.stack != [] && w.stack == v.stack[..|v.stack| - 1] && SameCells(v, w, r)
    requires Top(v).why.Answers? && Top(v).record == r ==> Top(v).why.i + 1 >= v.records[r].naddrs
    ensures Filling(w, r, given, was)
  {
    var k := |v.stack| - 1;
    assert forall x :: Answering(w, r, x) ==> Answering(v, r, x) && w.stack[x] == v.stack[x] && x < k;
    if Answering(v, r, k) {
      assert v.stack[k] == Top(v);
      assert NoneAnswering(w, r);
      assert v.stack[k].why.i == v.records[r].naddrs - 1;
    } else if NoneAnswering(w, r) {
      forall x ensures !Answering(v, r, x) {
        assert Answering(v, r, x) && x < k ==> Answering(w, r, x);
      }
    }
    hide CopiedTo;
  }

  /** The next address is copied. */
  lemma CopyFills<A, F>(v: View<A, F>, pick: nat, r: nat, given: seq<A>, was: seq<Option<A>>)
    requires Filling(v, r, given, was) && Looping(v) && v.records[Top(v).record].waiting == [] && Top(v).why.Answers?
    requires var f, rec := Top(v), v.records[Top(v).record];
             f.why.i + 1 < rec.naddrs && f.why.i + 1 < |f.why.given| && f.why.i + 1 < |rec.addrs|
    ensures Filling(LoopStep(v, pick).0, r, given, was)
  {
    hide Told;
    var f, k, w := Top(v), |v.stack| - 1, LoopStep(v, pick).0;
    assert w.stack == v.stack[k := Top(w)] && |w.stack| == |v.stack|;
    assert forall x :: Answering(w, r, x) <==> Answering(v, r, x);
    assert NoneAnswering(w, r) <==> NoneAnswering(v, r);
    if f.record == r {
      assert Answering(v, r, k) && v.stack[k] == f;
      CopiedOne(v.records[r].addrs, given, was, f.why.i);
    }
    hide CopiedTo;
  }

  lemma CopiedOne<A>(addrs: seq<Option<A>>, given: seq<A>, was: seq<Option<A>>, i: nat)
    requires CopiedTo(addrs, given, was, i) && i + 1 < |given| && i + 1 < |addrs|
    ensures CopiedTo(addrs[i + 1 := Some(given[i + 1])], given, was, i + 1)
  {
  }

  lemma LoopFills<A, F>(v: View<A, F>, pick: nat, r: nat, given: seq<A>, was: seq<Option<A>>)
    requires Filling(v, r, given, was) && Looping(v)
    ensures Filling(LoopStep(v, pick).0, r, given, was)
  {
    var f, w := Top(v), LoopStep(v, pick).0;
    if v.records[f.record].waiting != [] {
      CallKeepsCells(v, pick, r);
      FillingKept(v, w, r, given, was);
    } else {
      hide Filling, SameAnswers, Told;
      FillingInRange(v, r, given, was);
      match f.why
      case Deletion => EndFills(v, w, r, given, was);
      case Failure => EndFills(v, w, r, given, was);
      case Answers(g, i, _) =>
        if i + 1 >= v.records[f.record].naddrs {
          EndFills(v, w, r, given, was);
        } else if i + 1 >= |g| || i + 1 >= |v.records[f.record].addrs| {
          SameStack(v, w, r);
          FillingKept(v, w, r, given, was);
        } else {
          CopyFills(v, pick, r, given, was);
        }
    }
  }

  lemma FillingInRange<A, F>(v: View<A, F>, r: nat, given: seq<A>, was: seq<Option<A>>)
    requires Filling(v, r, given, was)
    ensures r < |v.records|
  {
  }

  lemma StepFills<A, F>(cfg: Config<A>, v: View<A, F>, a: Act<A, F>, r: nat, given: seq<A>, was: seq<Option<A>>)
    requires Sane(v) && Filling(v, r, given, was) && !Lets(cfg, v, a, r) && !Sets(v, a, r)
    ensures Filling(Step(cfg, v, a).0, r, given, was)
  {
    hide Sane, Filling, Lets, Sets, Effect, Enabled;
    if Enabled(v, a) {
      EffectFills(cfg, v, a, r, given, was);
      FillingTicks(Effect(cfg, v, a).0, v.clock + 1, r, given, was);
    }
  }

  lemma EffectFills<A, F>(cfg: Config<A>, v: View<A, F>, a: Act<A, F>, r: nat, given: seq<A>, was: seq<Option<A>>)
    requires Sane(v) && Filling(v, r, given, was) && Enabled(v, a) && !Lets(cfg, v, a, r) && !Sets(v, a, r)
    ensures Filling(Effect(cfg, v, a).0, r, given, was)
  {
    FillingInRange(v, r, given, was);
    var w := Effect(cfg, v, a).0;
    hide LowerAll, Sane, AddStep, StartStep, DelStep, ResultStep, LoopStep, ReturnStep, Filling, Lets, Sets,
      SameAnswers;
    match a
    case Add(_, _) =>
      AddKeepsCells(cfg, v, a, r);
      SameStack(v, w, r);
      FillingKept(v, w, r, given, was);
    case Del(name) =>
      DelKeepsCells(cfg, v, name, r);
      FillingKept(v, w, r, given, was);
    case Start(_, _, _, _, _) =>
      StartKeepsCells(cfg, v, a, r);
      SameStack(v, w, r);
      FillingKept(v, w, r, given, was);
    case Ask(_) =>
      SameStack(v, w, r);
      FillingKept(v, w, r, given, was);
    case Result(query, addrs, pick) =>
      ResultKeepsCells(v, query, addrs, pick, r);
      FillingKept(v, w, r, given, was);
    case Loop(pick) => LoopFills(v, pick, r, given, was);
    case Return =>
      ReturnKeepsCells(v, r);
      FillingKept(v, w, r, given, was);
  }

  lemma DelKeepsCells<A, F>(cfg: Config<A>, v: View<A, F>, name: Str, r: nat)
    requires r < |v.records|
    ensures SameCells(v, DelStep(cfg, v, name), r) && SameAnswers(v, DelStep(cfg, v, name), r)
  {
    hide LowerAll, Takes;
    var key := LowerAll(name);
    if key in v.index && v.index[key] < |v.records| && Takes(cfg, name) {
      OtherPushed(v, DelStep(cfg, v, name), r, Frame(v.index[key], Deletion, v.clock, false));
    } else {
      SameStack(v, v, r);
    }
  }

  lemma FillingTicks<A, F>(v: View<A, F>, clock: nat, r: nat, given: seq<A>, was: seq<Option<A>>)
    requires Filling(v, r, given, was)
    ensures Filling(v.(clock := clock), r, given, was)
  {
    SameStack(v, v.(clock := clock), r);
    FillingKept(v, v.(clock := clock), r, given, was);
  }

  /** No step of the run lets the record or gives it addresses. */
  ghost predicate Kept<A, F>(cfg: Config<A>, v: View<A, F>, acts: seq<Act<A, F>>, r: nat)
    decreases acts
  {
    acts == [] ||
    (!Lets(cfg, v, acts[0], r) && !Sets(v, acts[0], r) && Kept(cfg, Step(cfg, v, acts[0]).0, acts[1..], r))
  }

  lemma {:induction false} RunFills<A, F>(cfg: Config<A>, v: View<A, F>, acts: seq<Act<A, F>>, r: nat,
                                          given: seq<A>, was: seq<Option<A>>)
    requires Sane(v) && Filling(v, r, given, was) && Kept(cfg, v, acts, r)
    ensures var w := RunOf(cfg, v, acts).0; Sane(w) && Filling(w, r, given, was)
    decreases acts
  {
    hide Step, Sane, Filling, Lets, Sets;
    if acts != [] {
      StepIsSane(cfg, v, acts[0]);
      StepFills(cfg, v, acts[0], r, given, was);
      RunFills(cfg, Step(cfg, v, acts[0]).0, acts[1..], r, given, was);
    }
  }

  /** From the result on: the cells of its record at the end of a run. */
  lemma FilledFromResult<A, F>(cfg: Config<A>, v: View<A, F>, query: nat, given: seq<A>, pick: nat,
                               acts: seq<Act<A, F>>)
    requires Sane(v) && Idle(v) && query in v.queries && given != [] && NoneAnswering(v, v.queries[query].record)
    requires Kept(cfg, Step(cfg, v, Result(query, given, pick)).0, acts, v.queries[query].record)
    ensures v.queries[query].record < |v.records|
    ensures var r := v.queries[query].record;
            Filling(RunOf(cfg, Step(cfg, v, Result(query, given, pick)).0, acts).0, r, given, v.records[r].addrs)
  {
    hide Sane, Filling, ResultStep, Kept, RunOf, NoneAnswering, Step;
    QueriesBelow(v);
    var r, a := v.queries[query].record, Act<A, F>.Result(query, given, pick);
    FillingBegins(v, query, given, pick);
    StepIsSane(cfg, v, a);
    var w := ResultStep(v, query, given, pick);
    FillingTicks(w, v.clock + 1, r, given, v.records[r].addrs);
    StepOfResult(cfg, v, query, given, pick);
    RunFills(cfg, Step(cfg, v, a).0, acts, r, given, v.records[r].addrs);
  }

  lemma StepOfResult<A, F>(cfg: Config<A>, v: View<A, F>, query: nat, given: seq<A>, pick: nat)
    requires Idle(v)
    ensures Step(cfg, v, Result(query, given, pick)).0 == ResultStep(v, query, given, pick).(clock := v.clock + 1)
  {
    hide ResultStep;
  }

  // ----- gethostbyname

  /** A literal is its own answer; a name that has no addresses has none; any other gets one of its record's cells. */
  lemma HostMeans<A, F>(cfg: Config<A>, v: View<A, F>, name: Str, pick: nat)
    requires Sane(v)
    ensures var key, host := LowerAll(name), HostOf(cfg, v, name, pick);
            if cfg.isAddress(name).Some? then host == cfg.isAddress(name)
            else if cfg.closed || |name| > MAX_DOMAIN_LEN || key !in v.index then host == None
            else
              && v.index[key] < |v.records|
              && var rec := v.records[v.index[key]];
                 if rec.naddrs == 0 then host == None
                 else exists k :: 0 <= k < rec.naddrs <= |rec.addrs| && host == rec.addrs[k]
  {
    InPlace(v);
    var key := LowerAll(name);
    if key in v.index {
      RecordAt(v.records, v.stack, v.clock, v.index[key]);
      var rec := v.records[v.index[key]];
      if rec.naddrs > 0 && cfg.isAddress(name).None? && !cfg.closed && |name| <= MAX_DOMAIN_LEN {
        var k := pick % rec.naddrs;
        assert 0 <= k < rec.naddrs <= |rec.addrs| && HostOf(cfg, v, name, pick) == rec.addrs[k];
      }
    }
    hide LowerAll, Sane;
  }

  // Which address a cell will hold: loops that are in progress go on copying when those within them are through.

  /** The drain will still copy its `k`-th address. */
  ghost predicate Ahead<A, F>(v: View<A, F>, r: nat, k: nat, x: int) {
    Answering(v, r, x) && v.stack[x].why.i < k
  }

  /** The outermost one, which copies it last. */
  ghost predicate Outermost<A, F>(v: View<A, F>, r: nat, k: nat, x: int) {
    Ahead(v, r, k, x) && forall y :: 0 <= y < x ==> !Ahead(v, r, k, y)
  }

  function GivenAt<A>(given: seq<A>, k: nat): Option<A> {
    if k < |given| then Some(given[k]) else None
  }

  /** When all loops over the record are through its `k`-th cell will be this. */
  ghost predicate WillHold<A, F>(v: View<A, F>, r: nat, k: nat, cell: Option<A>) {
    && r < |v.records| && k < v.records[r].naddrs && k < |v.records[r].addrs|
    && (forall x :: Outermost(v, r, k, x) ==> cell == GivenAt(v.stack[x].why.given, k))
    && ((forall x :: !Ahead(v, r, k, x)) ==> cell == v.records[r].addrs[k])
  }

  /** If any is ahead one is the outermost. */
  lemma {:induction false} SomeOutermost<A, F>(v: View<A, F>, r: nat, k: nat, x: nat) returns (o: nat)
    requires Ahead(v, r, k, x)
    ensures o <= x && Outermost(v, r, k, o)
    decreases x
  {
    o := x;
    if y: nat :| y < x && Ahead(v, r, k, y) {
      o := SomeOutermost(v, r, k, y);
    }
  }

  lemma WillHoldKept<A, F>(v: View<A, F>, w: View<A, F>, r: nat, k: nat, cell: Option<A>)
    requires WillHold(v, r, k, cell) && SameCells(v, w, r) && SameAnswers(v, w, r)
    ensures WillHold(w, r, k, cell)
  {
    hide Answering;
    assert forall x :: Ahead(w, r, k, x) <==> Ahead(v, r, k, x);
    assert forall x :: Outermost(w, r, k, x) <==> Outermost(v, r, k, x);
  }

  /** A loop that ends had nothing ahead. */
  lemma EndHolds<A, F>(v: View<A, F>, w: View<A, F>, r: nat, k: nat, cell: Option<A>)
    requires WillHold(v, r, k, cell) && v.stack != [] && w.stack == v.stack[..|v.stack| - 1] && SameCells(v, w, r)
    requires Top(v).why.Answers? && Top(v).record == r ==> Top(v).why.i + 1 >= v.records[r].naddrs
    ensures WillHold(w, r, k, cell)
  {
    assert !Ahead(v, r, k, |v.stack| - 1);
    assert forall x :: 0 <= x < |w.stack| ==> w.stack[x] == v.stack[x];
    assert forall x :: Ahead(w, r, k, x) <==> Ahead(v, r, k, x);
    assert forall x :: Outermost(w, r, k, x) <==> Outermost(v, r, k, x);
    hide Ahead;
  }

  /** A copy brings the cell what was to come, or leaves it. */
  lemma CopyHolds<A, F>(v: View<A, F>, pick: nat, r: nat, k: nat, cell: Option<A>)
    requires WillHold(v, r, k, cell) && Looping(v) && v.records[Top(v).record].waiting == [] && Top(v).why.Answers?
    requires var f, rec := Top(v), v.records[Top(v).record];
             f.why.i + 1 < rec.naddrs && f.why.i + 1 < |f.why.given| && f.why.i + 1 < |rec.addrs|
    ensures WillHold(LoopStep(v, pick).0, r, k, cell)
  {
    hide Told;
    var f, top, w := Top(v), |v.stack| - 1, LoopStep(v, pick).0;
    assert w.stack == v.stack[top := Top(w)] && |w.stack| == |v.stack|;
    assert forall x :: 0 <= x < top ==> w.stack[x] == v.stack[x];
    assert forall x :: x != top ==> (Ahead(w, r, k, x) <==> Ahead(v, r, k, x));
    assert w.stack[top] == Top(w) && v.stack[top] == f;
    if f.record == r && f.why.i + 1 == k {
      assert Ahead(v, r, k, top) && !Ahead(w, r, k, top);
      forall x | Outermost(w, r, k, x) ensures Outermost(v, r, k, x) {
      }
      if forall x :: !Ahead(w, r, k, x) {
        assert Outermost(v, r, k, top);
      }
    } else {
      assert Ahead(w, r, k, top) <==> Ahead(v, r, k, top);
      assert forall x :: Outermost(w, r, k, x) <==> Outermost(v, r, k, x);
    }
    hide Ahead;
  }

  lemma LoopHolds<A, F>(v: View<A, F>, pick: nat, r: nat, k: nat, cell: Option<A>)
    requires WillHold(v, r, k, cell) && Looping(v)
    ensures WillHold(LoopStep(v, pick).0, r, k, cell)
  {
    var f, w := Top(v), LoopStep(v, pick).0;
    assert r < |v.records|;
    hide WillHold, SameAnswers, Told;
    if v.records[f.record].waiting != [] {
      CallKeepsCells(v, pick, r);
      WillHoldKept(v, w, r, k, cell);
    } else {
      match f.why
      case Deletion => EndHolds(v, w, r, k, cell);
      case Failure => EndHolds(v, w, r, k, cell);
      case Answers(g, i, _) =>
        if i + 1 >= v.records[f.record].naddrs {
          EndHolds(v, w, r, k, cell);
        } else if i + 1 >= |g| || i + 1 >= |v.records[f.record].addrs| {
          SameStack(v, w, r);
          WillHoldKept(v, w, r, k, cell);
        } else {
          CopyHolds(v, pick, r, k, cell);
        }
    }
  }

  lemma EffectHolds<A, F>(cfg: Config<A>, v: View<A, F>, a: Act<A, F>, r: nat, k: nat, cell: Option<A>)
    requires Sane(v) && WillHold(v, r, k, cell) && Enabled(v, a) && !Lets(cfg, v, a, r) && !Sets(v, a, r)
    ensures WillHold(Effect(cfg, v, a).0, r, k, cell)
  {
    assert r < |v.records|;
    var w := Effect(cfg, v, a).0;
    hide LowerAll, Sane, AddStep, StartStep, DelStep, ResultStep, LoopStep, ReturnStep, WillHold, Lets, Sets,
      SameAnswers;
    match a
    case Add(_, _) =>
      AddKeepsCells(cfg, v, a, r);
      SameStack(v, w, r);
      WillHoldKept(v, w, r, k, cell);
    case Del(name) =>
      DelKeepsCells(cfg, v, name, r);
      WillHoldKept(v, w, r, k, cell);
    case Start(_, _, _, _, _) =>
      StartKeepsCells(cfg, v, a, r);
      SameStack(v, w, r);
      WillHoldKept(v, w, r, k, cell);
    case Ask(_) =>
      SameStack(v, w, r);
      WillHoldKept(v, w, r, k, cell);
    case Result(query, addrs, pick) =>
      ResultKeepsCells(v, query, addrs, pick, r);
      WillHoldKept(v, w, r, k, cell);
    case Loop(pick) => LoopHolds(v, pick, r, k, cell);
    case Return =>
      ReturnKeepsCells(v, r);
      WillHoldKept(v, w, r, k, cell);
  }

  lemma {:induction false} RunHolds<A, F>(cfg: Config<A>, v: View<A, F>, acts: seq<Act<A, F>>, r: nat, k: nat,
                                          cell: Option<A>)
    requires Sane(v) && WillHold(v, r, k, cell) && Kept(cfg, v, acts, r)
    ensures WillHold(RunOf(cfg, v, acts).0, r, k, cell)
    decreases acts
  {
    hide Effect, Sane, WillHold, Lets, Sets, Enabled;
    if acts != [] {
      var a, w := acts[0], Step(cfg, v, acts[0]).0;
      StepIsSane(cfg, v, a);
      if Enabled(v, a) {
        EffectHolds(cfg, v, a, r, k, cell);
        HoldsTicks(Effect(cfg, v, a).0, v.clock + 1, r, k, cell);
      }
      RunHolds(cfg, w, acts[1..], r, k, cell);
    }
  }

  lemma HoldsTicks<A, F>(v: View<A, F>, clock: nat, r: nat, k: nat, cell: Option<A>)
    requires WillHold(v, r, k, cell)
    ensures WillHold(v.(clock := clock), r, k, cell)
  {
    SameStack(v, v.(clock := clock), r);
    WillHoldKept(v, v.(clock := clock), r, k, cell);
  }

  /** No older result that is still being handed out will bring another address into the cell. */
  ghost predicate Undisturbed<A, F>(v: View<A, F>, r: nat, given: seq<A>, k: nat) {
    forall x :: Outermost(v, r, k, x) ==> GivenAt(v.stack[x].why.given, k) == GivenAt(given, k)
  }

  /** What a cell will hold when a result has come, whatever older ones are still being handed out. */
  lemma ResultWillHold<A, F>(v: View<A, F>, query: nat, given: seq<A>, pick: nat, k: nat) returns (cell: Option<A>)
    requires Sane(v) && Idle(v) && query in v.queries && k < Min(|given|, MAX_ADDRS)
    requires v.queries[query].record < |v.records|
    ensures var r := v.queries[query].record;
            && WillHold(ResultStep(v, query, given, pick), r, k, cell)
            && (cell == Some(given[k]) <==> Undisturbed(v, r, given, k))
  {
    var r := v.queries[query].record;
    FramesAt(v, r);
    hide Sane;
    var w, top := ResultStep(v, query, given, pick), |v.stack|;
    var f := Frame(r, Answers(given, 0, pick % Min(|given|, MAX_ADDRS)), v.clock, false);
    assert w.stack == v.stack + [f] && w.stack[top] == f;
    assert forall x :: 0 <= x < top ==> w.stack[x] == v.stack[x];
    assert forall x :: x != top ==> (Ahead(w, r, k, x) <==> Ahead(v, r, k, x));
    assert Ahead(w, r, k, top) <==> k > 0;
    if y: nat :| Ahead(v, r, k, y) {
      var o := SomeOutermost(v, r, k, y);
      assert Outermost(w, r, k, o);
      cell := GivenAt(v.stack[o].why.given, k);
    } else {
      cell := Some(given[k]);
      assert forall x :: Outermost(w, r, k, x) ==> x == top;
    }
    hide Ahead;
  }

  /**
   Main theorem about addresses, over every run in which the record is not let and gets no other result: when all
   loops over it are through, a name that has it gets, for each random number, the address of that result which the
   number means, of the first eight, if and only if no older result that was being handed out when it came had another
   one still to copy into that place.
   */
  lemma HostIsGivenIff<A, F>(cfg: Config<A>, v: View<A, F>, query: nat, given: seq<A>, pick: nat, acts: seq<Act<A, F>>,
                             name: Str, random: nat)
    requires Sane(v) && Idle(v) && query in v.queries && given != []
    requires Kept(cfg, Step(cfg, v, Result(query, given, pick)).0, acts, v.queries[query].record)
    requires var w := RunOf(cfg, Step(cfg, v, Result(query, given, pick)).0, acts).0;
             && NoneAnswering(w, v.queries[query].record)
             && LowerAll(name) in w.index && w.index[LowerAll(name)] == v.queries[query].record
    requires cfg.isAddress(name).None? && !cfg.closed && |name| <= MAX_DOMAIN_LEN
    ensures var w, k := RunOf(cfg, Step(cfg, v, Result(query, given, pick)).0, acts).0,
            random % Min(|given|, MAX_ADDRS);
            HostOf(cfg, w, name, random) == Some(given[k]) <==> Undisturbed(v, v.queries[query].record, given, k)
  {
    hide Kept, RunOf, Sane, Step, LowerAll, Undisturbed, NoneAnswering, ResultStep;
    var r, a, n := v.queries[query].record, Act<A, F>.Result(query, given, pick), Min(|given|, MAX_ADDRS);
    QueriesBelow(v);
    var cell := ResultWillHold(v, query, given, pick, random % n);
    StepOfResult(cfg, v, query, given, pick);
    StepIsSane(cfg, v, a);
    HoldsTicks(ResultStep(v, query, given, pick), v.clock + 1, r, random % n, cell);
    RunHolds(cfg, Step(cfg, v, a).0, acts, r, random % n, cell);
    var w := RunOf(cfg, Step(cfg, v, a).0, acts).0;
    CountKept(cfg, v, query, given, pick, acts);
    NoneAhead(w, r, random % n);
  }

  lemma NoneAhead<A, F>(v: View<A, F>, r: nat, k: nat)
    requires NoneAnswering(v, r)
    ensures forall x :: !Ahead(v, r, k, x)
  {
  }

  lemma {:induction false} NaddrsKept<A, F>(cfg: Config<A>, v: View<A, F>, acts: seq<Act<A, F>>, r: nat)
    requires Sane(v) && r < |v.records| && Kept(cfg, v, acts, r)
    ensures var w := RunOf(cfg, v, acts).0; Sane(w) && r < |w.records| && w.records[r].naddrs == v.records[r].naddrs
    decreases acts
  {
    hide Step, Sane, Lets, Sets;
    if acts != [] {
      StepIsSane(cfg, v, acts[0]);
      GivenIs(cfg, v, acts[0], r);
      NaddrsKept(cfg, Step(cfg, v, acts[0]).0, acts[1..], r);
    }
  }

  lemma CountKept<A, F>(cfg: Config<A>, v: View<A, F>, query: nat, given: seq<A>, pick: nat, acts: seq<Act<A, F>>)
    requires Sane(v) && Idle(v) && query in v.queries && given != []
    requires Kept(cfg, Step(cfg, v, Result(query, given, pick)).0, acts, v.queries[query].record)
    ensures var w, r := RunOf(cfg, Step(cfg, v, Result(query, given, pick)).0, acts).0, v.queries[query].record;
            r < |w.records| && w.records[r].naddrs == Min(|given|, MAX_ADDRS) <= |w.records[r].addrs|
  {
    hide Kept, RunOf, Sane, Step;
    QueriesBelow(v);
    StepIsSane(cfg, v, Result(query, given, pick));
    StepOfResult(cfg, v, query, given, pick);
    var r := v.queries[query].record;
    NaddrsKept(cfg, Step(cfg, v, Result(query, given, pick)).0, acts, r);
    var w := RunOf(cfg, Step(cfg, v, Result(query, given, pick)).0, acts).0;
    FramesAt(w, r);
  }

  /** So with no older result being handed out it is always one of those given, and each of them for some number. */
  lemma HostIsGiven<A, F>(cfg: Config<A>, v: View<A, F>, query: nat, given: seq<A>, pick: nat, acts: seq<Act<A, F>>,
                          name: Str)
    requires Sane(v) && Idle(v) && query in v.queries && given != [] && NoneAnswering(v, v.queries[query].record)
    requires Kept(cfg, Step(cfg, v, Result(query, given, pick)).0, acts, v.queries[query].record)
    requires var w := RunOf(cfg, Step(cfg, v, Result(query, given, pick)).0, acts).0;
             && NoneAnswering(w, v.queries[query].record)
             && LowerAll(name) in w.index && w.index[LowerAll(name)] == v.queries[query].record
    requires cfg.isAddress(name).None? && !cfg.closed && |name| <= MAX_DOMAIN_LEN
    ensures var w, n := RunOf(cfg, Step(cfg, v, Result(query, given, pick)).0, acts).0, Min(|given|, MAX_ADDRS);
            && (forall random: nat :: HostOf(cfg, w, name, random) == Some(given[random % n]))
            && (forall k :: 0 <= k < n ==> HostOf(cfg, w, name, k) == Some(given[k]))
  {
    hide Kept, RunOf, Sane, Step, LowerAll, NoneAnswering, HostOf;
    var w, n := RunOf(cfg, Step(cfg, v, Result(query, given, pick)).0, acts).0, Min(|given|, MAX_ADDRS);
    forall random: nat ensures HostOf(cfg, w, name, random) == Some(given[random % n]) {
      NoneAhead(v, v.queries[query].record, random % n);
      HostIsGivenIff(cfg, v, query, given, pick, acts, name, random);
    }
    forall k | 0 <= k < n ensures HostOf(cfg, w, name, k) == Some(given[k]) {
      assert k % n == k;
    }
  }

  // ----- start_resolver

  /** The domain is in the table and has addresses. */
  ghost predicate Resolved<A, F>(v: View<A, F>, key: Str) {
    key in v.index && v.index[key] < |v.records| && v.records[v.index[key]].naddrs > 0
  }

  /** There is, or can be had, a record for the domain and a context for the callback. */
  ghost predicate HasRoom<A, F>(v: View<A, F>, key: Str, room: bool, roomCtx: bool) {
    (key in v.index || v.free != [] || room) && (v.spare > 0 || roomCtx)
  }

  /**
   What start_resolver does with a callback: nothing for an empty name; a literal is its own answer; a resolved domain
   is answered as gethostbyname does; any other waits at its record, with a query for that record; and whatever
   cannot be is told at once.
   */
  ghost predicate StartsAs<A, F>(cfg: Config<A>, v: View<A, F>, a: Act<A, F>, w: View<A, F>, calls: seq<Call<A, F>>)
    requires a.Start?
  {
    var name, key := a.name, LowerAll(a.name);
    if name == [] then calls == []
    else if cfg.isAddress(name).Some? then calls == [Call(a.callback, Own(cfg.isAddress(name)))]
    else if !Takes(cfg, name) then calls == [Call(a.callback, Nothing)]
    else if Resolved(v, key) then calls == [Call(a.callback, Own(HostOf(cfg, v, name, a.pick)))]
    else if !HasRoom(v, key, a.room, a.roomCtx) then calls == [Call(a.callback, Nothing)]
    else
      && calls == [] && key in w.index && w.index[key] < |w.records|
      && w.records[w.index[key]].waiting != [] && w.records[w.index[key]].waiting[0].callback == a.callback
      && v.nextQuery in w.queries && w.queries[v.nextQuery].record == w.index[key]
  }

  lemma StartMeans<A, F>(cfg: Config<A>, v: View<A, F>, a: Act<A, F>)
    requires Sane(v) && Enabled(v, a) && a.Start?
    ensures var (w, calls) := Step(cfg, v, a); StartsAs(cfg, v, a, w, calls)
  {
    hide LowerAll, Sane, AddStep, BeingDrained, StartStep, Looping, InCallback;
    StartStepMeans(cfg, v, a);
  }

  lemma StartStepMeans<A, F>(cfg: Config<A>, v: View<A, F>, a: Act<A, F>)
    requires Sane(v) && a.Start?
    ensures var (w, calls) := StartStep(cfg, v, a.name, a.callback, a.room, a.roomCtx, a.pick);
            StartsAs(cfg, v, a, w, calls)
  {
    hide LowerAll, Sane, AddStep, BeingDrained;
    StartAdds(cfg, v, a.name, a.room);
  }

  lemma StartAdds<A, F>(cfg: Config<A>, v: View<A, F>, name: Str, room: bool)
    requires Sane(v)
    ensures var w, key := AddStep(cfg, v, name, room), LowerAll(name);
            && w.spare == v.spare && w.nextQuery == v.nextQuery && w.clock == v.clock
            && (Takes(cfg, name) && key in v.index ==> w == v && v.index[key] < |v.records|)
            && (Takes(cfg, name) && key !in v.index ==>
                  if v.free == [] && !room then w == v
                  else
                    && key in w.index && w.index[key] < |w.records|
                    && w.records[w.index[key]].naddrs == 0 && w.records[w.index[key]].waiting == [])
            && (forall k :: k in v.index ==> v.index[k] < |v.records|)
            && (Takes(cfg, name) && key in v.index ==>
                  v.records[v.index[key]].naddrs <= |v.records[v.index[key]].addrs|)
  {
    InPlace(v);
    if LowerAll(name) in v.index {
      RecordAt(v.records, v.stack, v.clock, v.index[LowerAll(name)]);
    }
    hide LowerAll, Sane;
  }

  /** A query that a step asks is for the record of the step's own name, and a callback that comes waits there. */
  lemma AsksForItsName<A, F>(cfg: Config<A>, v: View<A, F>, a: Act<A, F>)
    requires Sane(v) && Enabled(v, a) && (a.Start? || a.Ask?)
    ensures var w, key := Step(cfg, v, a).0, if a.Start? then LowerAll(a.name) else a.name;
            && (forall q :: q in w.queries && q !in v.queries ==> key in w.index && w.queries[q].record == w.index[key])
            && (forall r :: |WaitersAt(w, r)| > |WaitersAt(v, r)| ==> key in w.index && w.index[key] == r)
  {
    QueriesBelow(v);
    if a.Start? {
      StartAsks(cfg, v, a);
    }
    hide LowerAll, Sane, StartStep;
  }

  lemma StartAsks<A, F>(cfg: Config<A>, v: View<A, F>, a: Act<A, F>)
    requires Sane(v) && Enabled(v, a) && a.Start?
    ensures var w, key := StartStep(cfg, v, a.name, a.callback, a.room, a.roomCtx, a.pick).0, LowerAll(a.name);
            && (forall q :: q in w.queries && q !in v.queries ==> key in w.index && w.queries[q].record == w.index[key])
            && (forall r :: |WaitersAt(w, r)| > |WaitersAt(v, r)| ==> key in w.index && w.index[key] == r)
  {
    AddKeepsQueries(cfg, v, a.name, a.room);
    forall r ensures WaitersAt(AddStep(cfg, v, a.name, a.room), r) == WaitersAt(v, r) {
      AddLeavesWaiters(cfg, v, a.name, a.room, r);
    }
    hide LowerAll, Sane, AddStep, BeingDrained;
  }

  // ----- what callbacks are told

  /** Those who wait are told nothing of a failure or a deletion. */
  lemma ToldOfEnd<A, F>(cfg: Config<A>, v: View<A, F>, pick: nat)
    requires Looping(v) && !Top(v).why.Answers? && v.records[Top(v).record].waiting != []
    ensures Step(cfg, v, Loop(pick)).1 == [Call(v.records[Top(v).record].waiting[0].callback, Nothing)]
  {
  }

  /**
   For every such run: a callback that the loop calls next is told the address that its index means exactly if that
   one was copied already, or the cell held it before. The loop calls all who wait before it copies the second.
   */
  lemma ToldGivenIff<A, F>(cfg: Config<A>, v: View<A, F>, query: nat, given: seq<A>, pick: nat, acts: seq<Act<A, F>>)
    requires Sane(v) && Idle(v) && query in v.queries && given != [] && NoneAnswering(v, v.queries[query].record)
    requires Kept(cfg, Step(cfg, v, Result(query, given, pick)).0, acts, v.queries[query].record)
    requires var w := RunOf(cfg, Step(cfg, v, Result(query, given, pick)).0, acts).0;
             Looping(w) && Top(w).record == v.queries[query].record && Top(w).why.Answers?
    ensures v.queries[query].record < |v.records|
    ensures var w := RunOf(cfg, Step(cfg, v, Result(query, given, pick)).0, acts).0;
            var n, was := Top(w).why.n, v.records[v.queries[query].record].addrs;
            && n < |given| && n < |was|
            && (Told(w) == Own(Some(given[n])) <==> n <= Top(w).why.i || was[n] == Some(given[n]))
  {
    var r, a := v.queries[query].record, Act<A, F>.Result(query, given, pick);
    FilledFromResult(cfg, v, query, given, pick, acts);
    StepIsSane(cfg, v, a);
    hide Kept, Sane, Step, NoneAnswering;
    var w := RunOf(cfg, Step(cfg, v, a).0, acts).0;
    RunIsSane(cfg, Step(cfg, v, a).0, acts);
    hide RunOf;
    TopAt(w);
    assert Answering(w, r, |w.stack| - 1);
  }

  lemma {:induction false} RunIsSane<A, F>(cfg: Config<A>, v: View<A, F>, acts: seq<Act<A, F>>)
    requires Sane(v)
    ensures Sane(RunOf(cfg, v, acts).0)
    decreases acts
  {
    hide Step, Sane;
    if acts != [] {
      StepIsSane(cfg, v, acts[0]);
      RunIsSane(cfg, Step(cfg, v, acts[0]).0, acts[1..]);
    }
  }

  // ----- in turn

  /** The loop calls `m` callbacks, which do nothing. */
  function Rounds<A, F>(m: nat): seq<Act<A, F>> {
    if m == 0 then [] else [Loop(0), Return] + Rounds(m - 1)
  }

  /** `j` places on from `n`, around. */
  function Turn(n: nat, j: nat, m: nat): (k: nat)
    requires n < m
    ensures k < m
    decreases j
  {
    if j == 0 then n else Turn(if n + 1 == m then 0 else n + 1, j - 1, m)
  }

  /** The loop is about to hand out the `n`-th cell of a record of which enough wait. */
  ghost predicate Handing<A, F>(v: View<A, F>, n: nat, m: nat) {
    && Looping(v) && Top(v).why.Answers? && Top(v).why.n == n
    && var rec := v.records[Top(v).record];
       n < rec.naddrs <= |rec.addrs| && m <= |rec.waiting|
  }

  lemma OneRound<A, F>(cfg: Config<A>, v: View<A, F>, n: nat, m: nat)
    requires Handing(v, n, m) && m > 0
    ensures var r := Top(v).record;
            var w := Step(cfg, Step(cfg, v, Loop(0)).0, Return).0;
            && Step(cfg, v, Loop(0)).1 == [Call(v.records[r].waiting[0].callback, Own(v.records[r].addrs[n]))]
            && Step(cfg, Step(cfg, v, Loop(0)).0, Return).1 == []
            && Handing(w, (n + 1) % v.records[r].naddrs, m - 1) && Top(w).record == r
            && w.records[r] == v.records[r].(waiting := v.records[r].waiting[1..])
  {
    var v1 := Step(cfg, v, Loop(0)).0;
    assert InCallback(v1);
    var w := Step(cfg, v1, Return).0;
    assert Looping(w);
  }

  /**
   The callbacks that wait are handed the record's cells in turn, the last come first, from where the random number
   points on and around.
   */
  lemma {:induction false} HandsOutInTurn<A, F>(cfg: Config<A>, v: View<A, F>, n: nat, m: nat)
    requires Handing(v, n, m)
    ensures var calls, rec := RunOf(cfg, v, Rounds(m)).1, v.records[Top(v).record];
            && |calls| == m && n < rec.naddrs <= |rec.addrs| && m <= |rec.waiting|
            && forall j :: 0 <= j < m ==>
                 calls[j] == Call(rec.waiting[j].callback, Own(rec.addrs[Turn(n, j, rec.naddrs)]))
    decreases m
  {
    hide Step, Handing;
    HandingIs(v, n, m);
    if m > 0 {
      var rec, u := v.records[Top(v).record], Step(cfg, v, Loop(0)).0;
      var w, next := Step(cfg, u, Return).0, (n + 1) % rec.naddrs;
      OneRound(cfg, v, n, m);
      HandingIs(w, next, m - 1);
      HandsOutInTurn(cfg, w, next, m - 1);
      var first, more := Step(cfg, v, Loop(0)).1, RunOf(cfg, w, Rounds(m - 1)).1;
      RunTwo(cfg, v, Loop(0), Return, Rounds(m - 1));
      assert next == if n + 1 == rec.naddrs then 0 else n + 1;
      assert RunOf(cfg, v, Rounds(m)).1 == first + ([] + more) && [] + more == more;
      hide RunOf, Rounds;
      OneMoreTurn(rec, n, m, first, more);
    }
  }

  /** The calls of the rounds after the first, with that of the first in front. */
  lemma OneMoreTurn<A, F>(rec: Record<A, F>, n: nat, m: nat, first: seq<Call<A, F>>, more: seq<Call<A, F>>)
    requires 0 < m <= |rec.waiting| && n < rec.naddrs <= |rec.addrs|
    requires first == [Call(rec.waiting[0].callback, Own(rec.addrs[n]))] && |more| == m - 1
    requires var next := if n + 1 == rec.naddrs then 0 else n + 1;
             forall j :: 0 <= j < m - 1 ==>
               more[j] == Call(rec.waiting[1..][j].callback, Own(rec.addrs[Turn(next, j, rec.naddrs)]))
    ensures var calls := first + more;
            && |calls| == m
            && forall j :: 0 <= j < m ==>
                 calls[j] == Call(rec.waiting[j].callback, Own(rec.addrs[Turn(n, j, rec.naddrs)]))
  {
    forall j | 0 < j < m
      ensures (first + more)[j] == Call(rec.waiting[j].callback, Own(rec.addrs[Turn(n, j, rec.naddrs)]))
    {
      assert (first + more)[j] == more[j - 1] && rec.waiting[1..][j - 1] == rec.waiting[j];
    }
  }

  lemma HandingIs<A, F>(v: View<A, F>, n: nat, m: nat)
    requires Handing(v, n, m)
    ensures v.stack != [] && Top(v).record < |v.records|
    ensures var rec := v.records[Top(v).record]; n < rec.naddrs <= |rec.addrs| && m <= |rec.waiting|
  {
  }

  lemma RunTwo<A, F>(cfg: Config<A>, v: View<A, F>, a: Act<A, F>, b: Act<A, F>, rest: seq<Act<A, F>>)
    ensures var (u, calls) := Step(cfg, v, a);
            var (w, calls2) := Step(cfg, u, b);
            RunOf(cfg, v, [a, b] + rest).1 == calls + (calls2 + RunOf(cfg, w, rest).1)
  {
    hide Step;
    assert ([a, b] + rest)[1..] == [b] + rest && ([b] + rest)[1..] == rest;
  }

  // ----- upper and lower case

  /** The two bytes are one letter. */
  predicate OneLetter(a: Byte, b: Byte) {
    (65 <= a <= 90 && b == a + 32) || (65 <= b <= 90 && a == b + 32)
  }

  predicate SameButCase(a: Str, b: Str) {
    |a| == |b| && forall i :: 0 <= i < |a| ==> a[i] == b[i] || OneLetter(a[i], b[i])
  }

  /** Two names have one entry in the table exactly if they differ in the case of letters only. */
  lemma OneKeyIff(a: Str, b: Str)
    ensures LowerAll(a) == LowerAll(b) <==> SameButCase(a, b)
  {
    if LowerAll(a) == LowerAll(b) {
      assert |a| == |LowerAll(a)| == |b|;
      forall i | 0 <= i < |a| ensures a[i] == b[i] || OneLetter(a[i], b[i]) {
        assert LowerAll(a)[i] == LowerAll(b)[i];
      }
    }
    if SameButCase(a, b) {
      assert forall i :: 0 <= i < |a| ==> LowerAll(a)[i] == LowerAll(b)[i];
    }
  }

  /** And then every operation does the same for the one as for the other, unless only one of them is a literal. */
  lemma CaseIsNothing<A, F>(cfg: Config<A>, v: View<A, F>, a: Str, b: Str, callback: F, room: bool, roomCtx: bool,
                            pick: nat)
    requires SameButCase(a, b) && cfg.isAddress(a) == cfg.isAddress(b)
    ensures Step(cfg, v, Add(a, room)) == Step(cfg, v, Add(b, room))
    ensures Step(cfg, v, Del(a)) == Step(cfg, v, Del(b))
    ensures Step(cfg, v, Start(a, callback, room, roomCtx, pick)) ==
            Step(cfg, v, Start(b, callback, room, roomCtx, pick))
    ensures HostOf(cfg, v, a, pick) == HostOf(cfg, v, b, pick)
  {
    OneKeyIff(a, b);
    SameLength(a, b);
    hide LowerAll, SameButCase, Opened, Drain, AddStep, DelStep, StartStep;
    CaseIsNothingToSteps(cfg, v, a, b, callback, room, roomCtx, pick);
  }

  lemma CaseIsNothingToSteps<A, F>(cfg: Config<A>, v: View<A, F>, a: Str, b: Str, callback: F, room: bool,
                                   roomCtx: bool, pick: nat)
    requires LowerAll(a) == LowerAll(b) && |a| == |b| && (a == [] <==> b == []) && cfg.isAddress(a) == cfg.isAddress(b)
    ensures AddStep(cfg, v, a, room) == AddStep(cfg, v, b, room) && DelStep(cfg, v, a) == DelStep(cfg, v, b)
    ensures StartStep(cfg, v, a, callback, room, roomCtx, pick) == StartStep(cfg, v, b, callback, room, roomCtx, pick)
  {
    hide LowerAll, Opened, Drain, Waiting;
    assert Takes(cfg, a) <==> Takes(cfg, b);
    assert AddStep(cfg, v, a, room) == AddStep(cfg, v, b, room);
    assert DelStep(cfg, v, a) == DelStep(cfg, v, b);
    hide AddStep, DelStep, Takes;
  }

  lemma SameLength(a: Str, b: Str)
    requires SameButCase(a, b)
    ensures |a| == |b| && (a == [] <==> b == [])
  {
  }

  /** Names that differ otherwise never share a record. */
  lemma OtherNamesApart<A, F>(v: View<A, F>, a: Str, b: Str)
    requires Sane(v) && !SameButCase(a, b) && LowerAll(a) in v.index && LowerAll(b) in v.index
    ensures v.index[LowerAll(a)] != v.index[LowerAll(b)]
  {
    OneKeyIff(a, b);
    OneTenant(v);
    hide Sane, LowerAll;
  }

  // ----- the names of the table

  predicate KeyOk(key: Str) {
    0 < |key| <= 128 && forall i :: 0 <= i < |key| ==> !(65 <= key[i] <= 90)
  }

  /** Every name of the table is in order; and a resolver that is closed has none. */
  ghost predicate KeysOk<A, F>(cfg: Config<A>, v: View<A, F>) {
    (forall n :: n in v.index ==> KeyOk(n)) && (cfg.closed ==> v.index == map[])
  }

  lemma LoweredIsOk(name: Str)
    requires 0 < |name| <= 128
    ensures KeyOk(LowerAll(name))
  {
  }

  lemma StepKeepsKeys<A, F>(cfg: Config<A>, v: View<A, F>, a: Act<A, F>)
    requires Sane(v) && KeysOk(cfg, v)
    ensures KeysOk(cfg, Step(cfg, v, a).0)
  {
    TableIsSet(cfg, v, a);
    if Enters(cfg, v, a) {
      LoweredIsOk(a.name);
    }
    hide Step, Sane, LowerAll, KeyOk;
  }

  /** In every run from the empty resolver the table has lower-case names of at most 128 bytes only. */
  lemma {:induction false} RunKeepsKeys<A, F>(cfg: Config<A>, v: View<A, F>, acts: seq<Act<A, F>>)
    requires Sane(v) && KeysOk(cfg, v)
    ensures KeysOk(cfg, RunOf(cfg, v, acts).0)
    decreases acts
  {
    hide Step, Sane, KeysOk;
    if acts != [] {
      StepIsSane(cfg, v, acts[0]);
      StepKeepsKeys(cfg, v, acts[0]);
      RunKeepsKeys(cfg, Step(cfg, v, acts[0]).0, acts[1..]);
    }
  }
}
