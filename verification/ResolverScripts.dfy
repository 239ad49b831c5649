/** Scripts with which the resolver breaks a promise, one for each way that the theorems leave open. */
module ResolverScripts {
  import opened Bytes
  import opened ResolverSpec
  import opened ResolverTheorems

  const A_NAME: Str := [97]
  const B_NAME: Str := [98]

  ghost predicate Plain<A>(cfg: Config<A>) {
    !cfg.closed && cfg.isAddress(A_NAME).None? && cfg.isAddress(B_NAME).None?
  }

  lemma NamesAreLower()
    ensures LowerAll(A_NAME) == A_NAME && LowerAll(B_NAME) == B_NAME && A_NAME != B_NAME
  {
    assert LowerAll(A_NAME)[0] == 97 && LowerAll(B_NAME)[0] == 98;
  }

  lemma Unfold<A, F>(cfg: Config<A>, v: View<A, F>, a: Act<A, F>, rest: seq<Act<A, F>>)
    ensures var (w, calls) := Step(cfg, v, a);
            var (u, more) := RunOf(cfg, w, rest);
            RunOf(cfg, v, [a] + rest) == (u, calls + more)
  {
    assert ([a] + rest)[1..] == rest;
  }

  lemma {:induction false} RunBoth<A, F>(cfg: Config<A>, v: View<A, F>, acts: seq<Act<A, F>>, more: seq<Act<A, F>>)
    ensures var (w, calls) := RunOf(cfg, v, acts);
            var (u, rest) := RunOf(cfg, w, more);
            RunOf(cfg, v, acts + more) == (u, calls + rest)
    decreases acts
  {
    hide Step;
    if acts == [] {
      assert [] + more == more;
      assert [] + RunOf(cfg, v, more).1 == RunOf(cfg, v, more).1;
    } else {
      assert (acts + more)[1..] == acts[1..] + more;
      var (v1, calls) := Step(cfg, v, acts[0]);
      RunBoth(cfg, v1, acts[1..], more);
      var (w, calls1) := RunOf(cfg, v1, acts[1..]);
      assert calls + (calls1 + RunOf(cfg, w, more).1) == (calls + calls1) + RunOf(cfg, w, more).1;
    }
  }

  lemma RunOne<A, F>(cfg: Config<A>, v: View<A, F>, a: Act<A, F>)
    ensures RunOf(cfg, v, [a]) == Step(cfg, v, a)
  {
    Unfold(cfg, v, a, []);
    assert [a] + [] == [a] && Step(cfg, v, a).1 + [] == Step(cfg, v, a).1;
    hide Step;
  }

  /** A domain was asked for and its query failed; the drain of its record is about to call who waits. */
  function FailedOnce<A, F>(c: F): seq<Act<A, F>> {
    [Start(A_NAME, c, true, true, 0), Result(0, [], 0)]
  }

  /** One domain, one record; nothing else but queries and drains. */
  function One<A, F>(clock: nat, index: map<Str, nat>, rec: Record<A, F>, free: seq<nat>, queries: map<nat, Query>,
                     next: nat, stack: seq<Frame<A>>): View<A, F>
  {
    View(clock, index, [rec], free, 0, queries, next, stack, None)
  }

  lemma Started<A, F>(cfg: Config<A>, c: F)
    requires Plain(cfg)
    ensures Step(cfg, Initial(), Start(A_NAME, c, true, true, 0))
         == (One(2, map[A_NAME := 0], Record(0, NoAddrs<A>(), [Wait(c, 1, false)], 1, 0, 0), [], map[0 := Query(0, 1)],
                 1, []), [])
  {
    NamesAreLower();
    var v0: View<A, F> := Initial();
    var begun := AddStep(cfg, v0, A_NAME, true);
    assert begun.index == map[A_NAME := 0] && begun.records == [Cleared(1, 0, 0)] && begun.stack == [];
    assert !BeingDrained(begun, 0);
    assert [Wait(c, 1, false)] + [] == [Wait(c, 1, false)];
    assert StartStep(cfg, v0, A_NAME, c, true, true, 0) == (Waiting(begun, 0, c), []);
    var w := Step(cfg, v0, Start(A_NAME, c, true, true, 0)).0;
    assert w.records == [Record(0, NoAddrs<A>(), [Wait(c, 1, false)], 1, 0, 0)] && w.queries == map[0 := Query(0, 1)];
  }

  lemma FailedOnceIs<A, F>(cfg: Config<A>, c: F)
    requires Plain(cfg)
    ensures RunOf(cfg, Initial(), FailedOnce(c))
         == (One(3, map[A_NAME := 0], Record(0, NoAddrs<A>(), [Wait(c, 1, false)], 1, 0, 2), [], map[], 1,
                 [Frame(0, Failure, 2, false)]), [])
  {
    var s, r: Act<A, F> := Start(A_NAME, c, true, true, 0), Result(0, [], 0);
    var v1 := Step(cfg, Initial(), s).0;
    Started(cfg, c);
    var v2 := Step(cfg, v1, r).0;
    assert v2.records == [Record(0, NoAddrs(), [Wait(c, 1, false)], 1, 0, 2)];
    assert v2.queries == map[] && v2.stack == [Frame(0, Failure, 2, false)];
    Unfold(cfg, Initial(), s, [r]);
    RunOne(cfg, v1, r);
    assert [s] + [r] == FailedOnce(c);
    hide Step;
  }

  // ----- asking again from the callback

  /** The drain of the record of `name` is about to call the one callback that waits. */
  ghost predicate Retrying<A, F>(v: View<A, F>, name: Str) {
    && Looping(v) && v.stack == [Top(v)] && Top(v).why.Failure?
    && LowerAll(name) in v.index && v.index[LowerAll(name)] == Top(v).record
    && v.records[Top(v).record].naddrs == 0 && |v.records[Top(v).record].waiting| == 1
  }

  function Retry<A, F>(name: Str, c: F): seq<Act<A, F>> {
    [Loop(0), Start(name, c, true, true, 0), Return]
  }

  /** It is called, asks again, returns: and the drain is where it was. */
  lemma RetryOnce<A, F>(cfg: Config<A>, v: View<A, F>, name: Str, c: F)
    requires Retrying(v, name) && Takes(cfg, name)
    ensures var (w, calls) := RunOf(cfg, v, Retry(name, c));
            && Retrying(w, name) && |calls| == 1 && calls[0].answer == Nothing
            && w.records[Top(w).record].waiting[0].callback == c && w.records[Top(w).record].waiting[0].drained
            && Top(w).began == Top(v).began && (Top(v).began < v.clock ==> CallsEarly(w))
  {
    hide LowerAll;
    var f, key := Top(v), LowerAll(name);
    var r := f.record;
    var rec := v.records[r];
    var s, ret: Act<A, F> := Start(name, c, true, true, 0), Return;
    var (v1, calls1) := Step(cfg, v, Loop(0));
    assert rec.waiting[1..] == [];
    assert v1.stack == [f.(busy := true)];
    assert calls1 == [Call(rec.waiting[0].callback, Nothing)];
    assert v1.stack == [f.(busy := true)] && v1.records == v.records[r := rec.(waiting := [])] && v1.index == v.index;
    var (v2, calls2) := Step(cfg, v1, s);
    assert v1.stack[0].record == r;
    assert BeingDrained(v1, r);
    var w := Wait(c, v1.clock, true);
    assert v2.records == v1.records[r := v1.records[r].(waiting := [w] + [])] && v2.stack == v1.stack && calls2 == [];
    var (v3, calls3) := Step(cfg, v2, ret);
    assert v3.stack == [f] && v3.records == v2.records && calls3 == [];
    Unfold(cfg, v, Loop(0), [s, ret]);
    Unfold(cfg, v1, s, [ret]);
    Unfold(cfg, v2, ret, []);
    assert [Loop(0)] + [s, ret] == Retry(name, c) && [s] + [ret] == [s, ret] && [ret] + [] == [ret];
    hide Step, Waiting;
  }

  function Retries<A, F>(name: Str, c: F, k: nat): seq<Act<A, F>> {
    if k == 0 then [] else Retry(name, c) + Retries(name, c, k - 1)
  }

  /** A callback that asks again whenever it is told of a failure is called for ever, within one drain. */
  lemma {:induction false} RetryForever<A, F>(cfg: Config<A>, v: View<A, F>, name: Str, c: F, k: nat)
    requires Retrying(v, name) && Takes(cfg, name)
    ensures var (w, calls) := RunOf(cfg, v, Retries(name, c, k));
            Retrying(w, name) && Top(w).began == Top(v).began && |calls| == k
    decreases k
  {
    hide RunOf, Retrying, LowerAll, Step;
    if k == 0 {
      NoSteps(cfg, v);
    } else {
      RetryOnce(cfg, v, name, c);
      var (w, calls) := RunOf(cfg, v, Retry(name, c));
      RetryForever(cfg, w, name, c, k - 1);
      RunBoth(cfg, v, Retry(name, c), Retries(name, c, k - 1));
    }
    RetryingIsLooping(v, name);
    RetryingIsLooping(RunOf(cfg, v, Retries(name, c, k)).0, name);
  }

  lemma NoSteps<A, F>(cfg: Config<A>, v: View<A, F>)
    ensures RunOf(cfg, v, []) == (v, [])
  {
  }

  lemma RetryingIsLooping<A, F>(v: View<A, F>, name: Str)
    ensures Retrying(v, name) ==> Looping(v)
  {
  }

  /**
   The script: a query fails, the callback asks for its domain again, and is about to be told of the old failure
   while its own query is under way.
   */
  lemma RetryIsToldOfOldFailure<A, F>(cfg: Config<A>, c: F, again: F)
    requires Plain(cfg)
    ensures var (w, calls) := RunOf(cfg, Initial(), FailedOnce(c) + Retry(A_NAME, again));
            && calls == [Call(c, Nothing)]
            && Looping(w) && w.records[Top(w).record].waiting != [] && CallsEarly(w)
            && w.records[Top(w).record].waiting[0].callback == again
  {
    hide Step;
    NamesAreLower();
    FailedOnceIs(cfg, c);
    var (v, calls) := RunOf(cfg, Initial(), FailedOnce(c));
    RunBoth(cfg, Initial(), FailedOnce(c), Retry(A_NAME, again));
    RetryOnce(cfg, v, A_NAME, again);
    FirstRetryCalls(cfg, v, again);
    hide RunOf;
  }

  lemma FirstRetryCalls<A, F>(cfg: Config<A>, v: View<A, F>, again: F)
    requires Looping(v) && v.records[Top(v).record].waiting != [] && Top(v).why.Failure?
    requires |RunOf(cfg, v, Retry(A_NAME, again)).1| == 1
    ensures RunOf(cfg, v, Retry(A_NAME, again)).1 == [Call(v.records[Top(v).record].waiting[0].callback, Nothing)]
  {
    var s, ret: Act<A, F> := Start(A_NAME, again, true, true, 0), Return;
    Unfold(cfg, v, Loop(0), [s, ret]);
    assert [Loop(0)] + [s, ret] == Retry(A_NAME, again);
    assert Step(cfg, v, Loop(0)).1 == [Call(v.records[Top(v).record].waiting[0].callback, Nothing)];
    hide Step;
  }

  // ----- letting the record again from the callback

  function FirstAddr<A>(x: A): seq<Option<A>> {
    NoAddrs()[0 := Some(x)]
  }

  /** A domain gets an address; its callback, called, deletes it and asks for another domain, which gets its record. */
  function LetAgain<A, F>(c: F, d: F, x: A): seq<Act<A, F>> {
    [Start(A_NAME, c, true, true, 0), Result(0, [x], 0), Loop(0), Del(A_NAME), Loop(0), Start(B_NAME, d, true, true, 0)]
  }

  function Handing<A>(x: A, busy: bool): Frame<A> {
    Frame(0, Answers([x], 0, 0), 2, busy)
  }

  /** What the six steps come to. */
  function Relet<A, F>(d: F, x: A): View<A, F> {
    One(7, map[B_NAME := 0], Record(0, NoAddrs<A>(), [Wait(d, 6, true)], 6, 2, 4), [], map[1 := Query(0, 6)], 2,
        [Handing(x, true)])
  }

  lemma Answered<A, F>(cfg: Config<A>, c: F, x: A)
    requires Plain(cfg)
    ensures Step(cfg, Step(cfg, Initial(), Start(A_NAME, c, true, true, 0)).0, Result(0, [x], 0))
         == (One(3, map[A_NAME := 0], Record(1, FirstAddr(x), [Wait(c, 1, false)], 1, 2, 2), [], map[], 1,
                 [Handing(x, false)]), [])
  {
    Started(cfg, c);
    var v1 := Step(cfg, Initial(), Start(A_NAME, c, true, true, 0)).0;
    var v2 := Step(cfg, v1, Result(0, [x], 0)).0;
    assert v2.records == [Record(1, FirstAddr(x), [Wait(c, 1, false)], 1, 2, 2)];
    assert v2.queries == map[] && v2.stack == [Handing(x, false)];
  }

  lemma CalledWith<A, F>(cfg: Config<A>, c: F, x: A)
    ensures Step(cfg, One(3, map[A_NAME := 0], Record(1, FirstAddr(x), [Wait(c, 1, false)], 1, 2, 2), [], map[], 1,
                          [Handing(x, false)]),
                 Loop(0))
         == (One(4, map[A_NAME := 0], Record(1, FirstAddr(x), [], 1, 2, 2), [], map[], 1, [Handing(x, true)]),
             [Call(c, Own(Some(x)))])
  {
    var v := One(3, map[A_NAME := 0], Record(1, FirstAddr(x), [Wait(c, 1, false)], 1, 2, 2), [], map[], 1,
                 [Handing(x, false)]);
    var w := Step(cfg, v, Loop(0)).0;
    assert [Wait(c, 1, false)][1..] == [];
    assert w.records == [Record(1, FirstAddr(x), [], 1, 2, 2)] && w.stack == [Handing(x, true)];
  }

  lemma Deleted<A, F>(cfg: Config<A>, x: A)
    requires Plain(cfg)
    ensures Step<A, F>(cfg, One(4, map[A_NAME := 0], Record(1, FirstAddr(x), [], 1, 2, 2), [], map[], 1,
                                [Handing(x, true)]), Del(A_NAME))
         == (One(5, map[], Record(1, FirstAddr(x), [], 1, 2, 4), [], map[], 1,
                 [Handing(x, true), Frame(0, Deletion, 4, false)]), [])
  {
    NamesAreLower();
    var v: View<A, F> := One(4, map[A_NAME := 0], Record(1, FirstAddr(x), [], 1, 2, 2), [], map[], 1,
                             [Handing(x, true)]);
    var w := Step(cfg, v, Del(A_NAME)).0;
    assert w.index == map[] && w.records == [Record(1, FirstAddr(x), [], 1, 2, 4)];
    assert w.stack == [Handing(x, true), Frame(0, Deletion, 4, false)];
  }

  lemma Freed<A, F>(cfg: Config<A>, x: A)
    ensures Step<A, F>(cfg, One(5, map[], Record(1, FirstAddr(x), [], 1, 2, 4), [], map[], 1,
                                [Handing(x, true), Frame(0, Deletion, 4, false)]),
                       Loop(0))
         == (One(6, map[], Record(1, FirstAddr(x), [], 1, 2, 4), [0], map[], 1, [Handing(x, true)]), [])
  {
    var v: View<A, F> :=
      One(5, map[], Record(1, FirstAddr(x), [], 1, 2, 4), [], map[], 1,
          [Handing(x, true), Frame(0, Deletion, 4, false)]);
    var w := Step(cfg, v, Loop(0)).0;
    assert w.stack == [Handing(x, true)] && w.free == [0];
  }

  lemma LetToOther<A, F>(cfg: Config<A>, d: F, x: A)
    requires Plain(cfg)
    ensures Step(cfg, One(6, map[], Record(1, FirstAddr(x), [], 1, 2, 4), [0], map[], 1, [Handing(x, true)]),
                 Start(B_NAME, d, true, true, 0))
         == (Relet(d, x), [])
  {
    NamesAreLower();
    var v: View<A, F> := One(6, map[], Record(1, FirstAddr(x), [], 1, 2, 4), [0], map[], 1, [Handing(x, true)]);
    var begun := AddStep(cfg, v, B_NAME, true);
    assert begun.index == map[B_NAME := 0] && begun.records == [Record(0, NoAddrs(), [], 6, 2, 4)];
    assert begun.stack == [Handing(x, true)] && begun.free == [];
    assert begun.stack[0].record == 0;
    assert BeingDrained(begun, 0);
    assert [Wait(d, 6, true)] + [] == [Wait(d, 6, true)];
    assert StartStep(cfg, v, B_NAME, d, true, true, 0) == (Waiting(begun, 0, d), []);
    var w := Step(cfg, v, Start(B_NAME, d, true, true, 0)).0;
    assert w.records == [Record(0, NoAddrs(), [Wait(d, 6, true)], 6, 2, 4)] && w.queries == map[1 := Query(0, 6)];
  }

  lemma LetAgainIs<A, F>(cfg: Config<A>, c: F, d: F, x: A)
    requires Plain(cfg)
    ensures RunOf(cfg, Initial(), LetAgain(c, d, x)) == (Relet(d, x), [Call(c, Own(Some(x)))])
  {
    hide Step, One, Relet;
    var acts: seq<Act<A, F>> := LetAgain(c, d, x);
    Started(cfg, c);
    Answered(cfg, c, x);
    CalledWith(cfg, c, x);
    Deleted<A, F>(cfg, x);
    Freed<A, F>(cfg, x);
    LetToOther(cfg, d, x);
    RunSteps(cfg, Initial(), acts, 6);
    assert acts[..6] == acts;
    hide RunOf, Walk;
    WalkOn(cfg, Initial(), acts, 0);
    WalkOn(cfg, Initial(), acts, 1);
    WalkOn(cfg, Initial(), acts, 2);
    WalkOn(cfg, Initial(), acts, 3);
    WalkOn(cfg, Initial(), acts, 4);
    WalkOn(cfg, Initial(), acts, 5);
    assert Walk(cfg, Initial(), acts, 6).0 == Relet(d, x);
    assert Walk(cfg, Initial(), acts, 2).1 == [];
    assert Walk(cfg, Initial(), acts, 3).1 == [Call(c, Own(Some(x)))];
    assert Walk(cfg, Initial(), acts, 6).1 == [Call(c, Own(Some(x)))];
  }

  /** The state after `k` steps, step by step. */
  ghost function Walk<A, F>(cfg: Config<A>, v: View<A, F>, acts: seq<Act<A, F>>, k: nat): (View<A, F>, seq<Call<A, F>>)
    requires k <= |acts|
  {
    if k == 0 then (v, [])
    else
      var (w, calls) := Walk(cfg, v, acts, k - 1);
      var (u, more) := Step(cfg, w, acts[k - 1]);
      (u, calls + more)
  }

  lemma WalkOn<A, F>(cfg: Config<A>, v: View<A, F>, acts: seq<Act<A, F>>, k: nat)
    requires k < |acts|
    ensures var (w, calls) := Walk(cfg, v, acts, k);
            var (u, more) := Step(cfg, w, acts[k]);
            Walk(cfg, v, acts, k + 1) == (u, calls + more)
    ensures Walk(cfg, v, acts, 0) == (v, [])
  {
    hide Step;
  }

  lemma {:induction false} RunSteps<A, F>(cfg: Config<A>, v: View<A, F>, acts: seq<Act<A, F>>, k: nat)
    requires k <= |acts|
    ensures RunOf(cfg, v, acts[..k]) == Walk(cfg, v, acts, k)
    decreases k
  {
    hide Step;
    if k > 0 {
      RunSteps(cfg, v, acts, k - 1);
      assert acts[..k] == acts[..k - 1] + [acts[k - 1]];
      RunBoth(cfg, v, acts[..k - 1], [acts[k - 1]]);
      RunOne(cfg, Walk(cfg, v, acts, k - 1).0, acts[k - 1]);
    }
  }

  /** The script: then the first callback returns, and the loop takes a remainder by the new domain's address count. */
  lemma LetAgainDividesByZero<A, F>(cfg: Config<A>, c: F, d: F, x: A)
    requires Plain(cfg)
    ensures RunOf(cfg, Initial(), LetAgain(c, d, x) + [Return]).0.fault == Some(DividesByZero)
  {
    LetAgainIs(cfg, c, d, x);
    var (v, calls) := RunOf(cfg, Initial(), LetAgain(c, d, x));
    RunBoth(cfg, Initial(), LetAgain(c, d, x), [Return]);
    RunOne(cfg, v, Return);
    assert Step(cfg, v, Return).0.fault == Some(DividesByZero);
    hide Step, RunOf;
  }

  /** After two addresses came for the new domain; `i` and `n` are the loop's. */
  function Twice<A, F>(clock: nat, rec: Record<A, F>, outer: Frame<A>, inner: seq<Frame<A>>): View<A, F> {
    One(clock, map[B_NAME := 0], rec, [], map[], 2, [outer] + inner)
  }

  function Second<A>(x: A, y: A, i: nat, n: nat, busy: bool): seq<Frame<A>> {
    [Frame(0, Answers([x, y], i, n), 7, busy)]
  }

  lemma TwiceAnswered<A, F>(cfg: Config<A>, d: F, x: A, y: A)
    ensures Step(cfg, Relet(d, x), Result(1, [x, y], 0)).0
         == Twice(8, Record(2, FirstAddr(x), [Wait(d, 6, true)], 6, 7, 7), Handing(x, true), Second(x, y, 0, 0, false))
  {
    var v, w := Relet(d, x), Step(cfg, Relet(d, x), Result(1, [x, y], 0)).0;
    assert w.records == [Record(2, FirstAddr(x), [Wait(d, 6, true)], 6, 7, 7)] && w.queries == map[];
    assert w.stack == [Handing(x, true)] + Second(x, y, 0, 0, false);
  }

  lemma TwiceCalled<A, F>(cfg: Config<A>, d: F, x: A, y: A)
    ensures Step(cfg, Twice(8, Record(2, FirstAddr(x), [Wait(d, 6, true)], 6, 7, 7), Handing(x, true),
                            Second(x, y, 0, 0, false)), Loop(0)).0
         == Twice(9, Record(2, FirstAddr(x), [], 6, 7, 7), Handing(x, true), Second(x, y, 0, 0, true))
  {
    var v := Twice(8, Record(2, FirstAddr(x), [Wait(d, 6, true)], 6, 7, 7), Handing(x, true),
                   Second(x, y, 0, 0, false));
    var w := Step(cfg, v, Loop(0)).0;
    assert [Wait(d, 6, true)][1..] == [];
    assert w.records == [Record(2, FirstAddr(x), [], 6, 7, 7)];
    assert w.stack == [Handing(x, true)] + Second(x, y, 0, 0, true);
  }

  lemma TwiceReturned<A, F>(cfg: Config<A>, x: A, y: A)
    ensures Step<A, F>(cfg, Twice(9, Record(2, FirstAddr(x), [], 6, 7, 7), Handing(x, true), Second(x, y, 0, 0, true)),
                       Return).0
         == Twice(10, Record(2, FirstAddr(x), [], 6, 7, 7), Handing(x, true), Second(x, y, 0, 1, false)).(spare := 1)
  {
    var v: View<A, F> := Twice(9, Record(2, FirstAddr(x), [], 6, 7, 7), Handing(x, true), Second(x, y, 0, 0, true));
    var w := Step(cfg, v, Return).0;
    assert w.stack == [Handing(x, true)] + Second(x, y, 0, 1, false);
  }

  lemma TwiceCopied<A, F>(cfg: Config<A>, x: A, y: A)
    ensures Step<A, F>(cfg, Twice(10, Record(2, FirstAddr(x), [], 6, 7, 7), Handing(x, true),
                                  Second(x, y, 0, 1, false)).(spare := 1), Loop(0)).0
         == Twice(11, Record(2, FirstAddr(x)[1 := Some(y)], [], 6, 7, 7), Handing(x, true),
                  Second(x, y, 1, 0, false)).(spare := 1)
  {
    var v: View<A, F> := Twice(10, Record(2, FirstAddr(x), [], 6, 7, 7), Handing(x, true),
                               Second(x, y, 0, 1, false)).(spare := 1);
    var w := Step(cfg, v, Loop(0)).0;
    assert w.records == [Record(2, FirstAddr(x)[1 := Some(y)], [], 6, 7, 7)];
    assert w.stack == [Handing(x, true)] + Second(x, y, 1, 0, false);
  }

  lemma TwiceEnded<A, F>(cfg: Config<A>, x: A, y: A)
    ensures Step<A, F>(cfg, Twice(11, Record(2, FirstAddr(x)[1 := Some(y)], [], 6, 7, 7), Handing(x, true),
                                  Second(x, y, 1, 0, false)).(spare := 1), Loop(0)).0
         == Twice(12, Record(2, FirstAddr(x)[1 := Some(y)], [], 6, 7, 7), Handing(x, true), []).(spare := 1)
  {
    var v: View<A, F> :=
      Twice(11, Record(2, FirstAddr(x)[1 := Some(y)], [], 6, 7, 7), Handing(x, true),
            Second(x, y, 1, 0, false)).(spare := 1);
    var w := Step(cfg, v, Loop(0)).0;
    assert w.stack == [Handing(x, true)] + [];
  }

  lemma BeyondEnd<A, F>(cfg: Config<A>, x: A, y: A)
    ensures var v: View<A, F> :=
            Twice(12, Record(2, FirstAddr(x)[1 := Some(y)], [], 6, 7, 7), Handing(x, true), []).(spare := 1);
            Step(cfg, Step(cfg, v, Return).0, Loop(0)).0.fault == Some(ReadsBeyond)
  {
    var v: View<A, F> := Twice(12, Record(2, FirstAddr(x)[1 := Some(y)], [], 6, 7, 7), Handing(x, true),
                               []).(spare := 1);
    var w := Step(cfg, v, Return).0;
    assert w.stack == [Frame(0, Answers([x], 0, 1), 2, false)] && w.records == v.records;
  }

  /** The script: if two addresses come for the new domain before that, the loop looks for a second one of its own. */
  lemma LetAgainReadsBeyond<A, F>(cfg: Config<A>, c: F, d: F, x: A, y: A)
    requires Plain(cfg)
    ensures var acts: seq<Act<A, F>> := [Result(1, [x, y], 0), Loop(0), Return, Loop(0), Loop(0), Return, Loop(0)];
            RunOf(cfg, Initial(), LetAgain(c, d, x) + acts).0.fault == Some(ReadsBeyond)
  {
    hide Step, Twice, Relet;
    var acts: seq<Act<A, F>> := [Result(1, [x, y], 0), Loop(0), Return, Loop(0), Loop(0), Return, Loop(0)];
    LetAgainIs(cfg, c, d, x);
    RunBoth(cfg, Initial(), LetAgain(c, d, x), acts);
    TwiceAnswered(cfg, d, x, y);
    TwiceCalled(cfg, d, x, y);
    TwiceReturned<A, F>(cfg, x, y);
    TwiceCopied<A, F>(cfg, x, y);
    TwiceEnded<A, F>(cfg, x, y);
    BeyondEnd<A, F>(cfg, x, y);
    var v: View<A, F> := Relet(d, x);
    RunSteps(cfg, v, acts, 7);
    assert acts[..7] == acts;
    hide RunOf, Walk;
    WalkOn(cfg, v, acts, 0);
    WalkOn(cfg, v, acts, 1);
    WalkOn(cfg, v, acts, 2);
    WalkOn(cfg, v, acts, 3);
    WalkOn(cfg, v, acts, 4);
    WalkOn(cfg, v, acts, 5);
    WalkOn(cfg, v, acts, 6);
  }

  // ----- deleting from the callback what others wait for

  function Waiters<F>(c1: F, c2: F): seq<Wait<F>> {
    [Wait(c2, 2, false), Wait(c1, 1, false)]
  }

  function HandingAt3<A>(x: A, busy: bool): Frame<A> {
    Frame(0, Answers([x], 0, 0), 3, busy)
  }

  lemma BothWait<A, F>(cfg: Config<A>, c1: F, c2: F)
    requires Plain(cfg)
    ensures Step(cfg, Step(cfg, Initial(), Start(A_NAME, c1, true, true, 0)).0, Start(A_NAME, c2, true, true, 0))
         == (One(3, map[A_NAME := 0], Record(0, NoAddrs<A>(), Waiters(c1, c2), 1, 0, 0), [],
                 map[0 := Query(0, 1), 1 := Query(0, 2)], 2, []), [])
  {
    NamesAreLower();
    Started<A, F>(cfg, c1);
    var v := Step<A, F>(cfg, Initial(), Start(A_NAME, c1, true, true, 0)).0;
    assert AddStep(cfg, v, A_NAME, true) == v && !BeingDrained(v, 0);
    assert [Wait(c2, 2, false)] + [Wait(c1, 1, false)] == Waiters(c1, c2);
    assert StartStep(cfg, v, A_NAME, c2, true, true, 0) == (Waiting(v, 0, c2), []);
    var w := Step(cfg, v, Start(A_NAME, c2, true, true, 0)).0;
    assert w.records == [Record(0, NoAddrs<A>(), Waiters(c1, c2), 1, 0, 0)];
    assert w.queries == map[0 := Query(0, 1), 1 := Query(0, 2)];
  }

  lemma OneAnswer<A, F>(cfg: Config<A>, c1: F, c2: F, x: A)
    ensures Step(cfg, One(3, map[A_NAME := 0], Record(0, NoAddrs<A>(), Waiters(c1, c2), 1, 0, 0), [],
                          map[0 := Query(0, 1), 1 := Query(0, 2)], 2, []), Result(0, [x], 0))
         == (One(4, map[A_NAME := 0], Record(1, FirstAddr(x), Waiters(c1, c2), 1, 3, 3), [], map[1 := Query(0, 2)], 2,
                 [HandingAt3(x, false)]), [])
  {
    var v := One(3, map[A_NAME := 0], Record(0, NoAddrs<A>(), Waiters(c1, c2), 1, 0, 0), [],
                 map[0 := Query(0, 1), 1 := Query(0, 2)], 2, []);
    var w := Step(cfg, v, Result(0, [x], 0)).0;
    assert w.records == [Record(1, FirstAddr(x), Waiters(c1, c2), 1, 3, 3)];
    assert w.queries == map[1 := Query(0, 2)] && w.stack == [HandingAt3(x, false)];
  }

  lemma SecondCalled<A, F>(cfg: Config<A>, c1: F, c2: F, x: A)
    ensures Step(cfg, One(4, map[A_NAME := 0], Record(1, FirstAddr(x), Waiters(c1, c2), 1, 3, 3), [],
                          map[1 := Query(0, 2)], 2, [HandingAt3(x, false)]), Loop(0))
         == (One(5, map[A_NAME := 0], Record(1, FirstAddr(x), [Wait(c1, 1, false)], 1, 3, 3), [],
                 map[1 := Query(0, 2)], 2, [HandingAt3(x, true)]), [Call(c2, Own(Some(x)))])
  {
    var v := One(4, map[A_NAME := 0], Record(1, FirstAddr(x), Waiters(c1, c2), 1, 3, 3), [],
                 map[1 := Query(0, 2)], 2, [HandingAt3(x, false)]);
    var w := Step(cfg, v, Loop(0)).0;
    assert Waiters(c1, c2)[1..] == [Wait(c1, 1, false)];
    assert w.records == [Record(1, FirstAddr(x), [Wait(c1, 1, false)], 1, 3, 3)] && w.stack == [HandingAt3(x, true)];
  }

  /** The first callback is about to be called by the deletion's drain. */
  function Nested<A, F>(c1: F, x: A): View<A, F> {
    One(6, map[], Record(1, FirstAddr(x), [Wait(c1, 1, false)], 1, 3, 5), [], map[1 := Query(0, 2)], 2,
        [HandingAt3(x, true), Frame(0, Deletion, 5, false)])
  }

  lemma DeletedUnder<A, F>(cfg: Config<A>, c1: F, x: A)
    requires Plain(cfg)
    ensures Step(cfg, One(5, map[A_NAME := 0], Record(1, FirstAddr(x), [Wait(c1, 1, false)], 1, 3, 3), [],
                          map[1 := Query(0, 2)], 2, [HandingAt3(x, true)]), Del(A_NAME))
         == (Nested(c1, x), [])
  {
    NamesAreLower();
    var v := One(5, map[A_NAME := 0], Record(1, FirstAddr(x), [Wait(c1, 1, false)], 1, 3, 3), [],
                 map[1 := Query(0, 2)], 2, [HandingAt3(x, true)]);
    var w := Step(cfg, v, Del(A_NAME)).0;
    assert w.index == map[] && w.stack == [HandingAt3(x, true), Frame(0, Deletion, 5, false)];
    assert w.records == [Record(1, FirstAddr(x), [Wait(c1, 1, false)], 1, 3, 5)];
  }

  lemma Counted<A, F>(cfg: Config<A>, v: View<A, F>, a: Act<A, F>, rest: seq<Act<A, F>>, r: nat)
    ensures var w, drains := Step(cfg, v, a).0, Drains(cfg, v, a, r);
            && FirstDrain(cfg, v, [a] + rest, r) == (if drains then Some(v.clock) else FirstDrain(cfg, w, rest, r))
            && DrainCount(cfg, v, [a] + rest, r) == (if drains then 1 else 0) + DrainCount(cfg, w, rest, r)
  {
    assert ([a] + rest)[1..] == rest;
    hide Step, Drains;
  }

  /**
   The script: two wait for a domain, whose address comes; the one called first deletes the domain, and the other
   is told of the deletion, though it came outside all drains and the first result since was a success.
   */
  lemma NestedDeletionTellsOther<A, F>(cfg: Config<A>, c1: F, c2: F, x: A)
    requires Plain(cfg)
    ensures var v1 := Step<A, F>(cfg, Initial(), Start(A_NAME, c1, true, true, 0)).0;
            var acts: seq<Act<A, F>> := [Start(A_NAME, c2, true, true, 0), Result(0, [x], 0), Loop(0), Del(A_NAME)];
            var (v, calls) := RunOf(cfg, v1, acts);
            && calls == [Call(c2, Own(Some(x)))] && Looping(v)
            && v.records[0].waiting == [Wait(c1, 1, false)] && Top(v).record == 0 && !CallsEarly(v)
            && FirstDrain(cfg, v1, acts, 0) == Some(3) && Top(v).began == 5 && DrainCount(cfg, v1, acts, 0) == 2
            && Step(cfg, v, Loop(0)).1 == [Call(c1, Nothing)]
  {
    var v1 := Step<A, F>(cfg, Initial(), Start(A_NAME, c1, true, true, 0)).0;
    var s: Act<A, F> := Start(A_NAME, c2, true, true, 0);
    var t: Act<A, F> := Result(0, [x], 0);
    var u: Act<A, F> := Loop(0);
    var d: Act<A, F> := Del(A_NAME);
    BothWait<A, F>(cfg, c1, c2);
    OneAnswer(cfg, c1, c2, x);
    SecondCalled(cfg, c1, c2, x);
    DeletedUnder(cfg, c1, x);
    var v2, v3, v4 := Step(cfg, v1, s).0, Step(cfg, Step(cfg, v1, s).0, t).0,
      Step(cfg, Step(cfg, Step(cfg, v1, s).0, t).0, u).0;
    NestedDrains<A, F>(cfg, c1, c2, x);
    NestedTells<A, F>(cfg, c1, x);
    hide Step, One, Nested, Drains, Waiters, CallsEarly, RunOf, FirstDrain, DrainCount;
    Unfold(cfg, v1, s, [t, u, d]);
    Unfold(cfg, v2, t, [u, d]);
    Unfold(cfg, v3, u, [d]);
    RunOne(cfg, v4, d);
    Counted(cfg, v1, s, [t, u, d], 0);
    Counted(cfg, v2, t, [u, d], 0);
    Counted(cfg, v3, u, [d], 0);
    Counted(cfg, v4, d, [], 0);
    NoDrains<A, F>(cfg, Step(cfg, v4, d).0);
    assert [s] + [t, u, d] == [s, t, u, d] && [t] + [u, d] == [t, u, d] && [u] + [d] == [u, d] && [d] + [] == [d];
  }

  lemma NoDrains<A, F>(cfg: Config<A>, v: View<A, F>)
    ensures DrainCount(cfg, v, [], 0) == 0
  {
  }

  lemma NestedDrains<A, F>(cfg: Config<A>, c1: F, c2: F, x: A)
    requires Plain(cfg)
    ensures var v1 := Step<A, F>(cfg, Initial(), Start(A_NAME, c1, true, true, 0)).0;
            var v2 := Step(cfg, v1, Start(A_NAME, c2, true, true, 0)).0;
            var v3 := Step(cfg, v2, Result(0, [x], 0)).0;
            var v4 := Step(cfg, v3, Loop(0)).0;
            && !Drains(cfg, v1, Start(A_NAME, c2, true, true, 0), 0) && Drains(cfg, v2, Result(0, [x], 0), 0)
            && !Drains(cfg, v3, Loop(0), 0) && Drains(cfg, v4, Del(A_NAME), 0) && v2.clock == 3
  {
    NamesAreLower();
    BothWait<A, F>(cfg, c1, c2);
    OneAnswer(cfg, c1, c2, x);
    SecondCalled(cfg, c1, c2, x);
    hide Step;
  }

  lemma NestedTells<A, F>(cfg: Config<A>, c1: F, x: A)
    ensures var v: View<A, F> := Nested(c1, x);
            && Looping(v) && v.records[0].waiting == [Wait(c1, 1, false)] && Top(v).record == 0 && !CallsEarly(v)
            && Top(v).began == 5
            && Step(cfg, v, Loop(0)).1 == [Call(c1, Nothing)]
  {
  }

  // ----- a result for another domain

  /**
   The script: a domain's addresses are asked for, it is deleted, another domain gets its record, and the answer,
   when it comes, becomes the other domain's address.
   */
  lemma ResultReachesOtherDomain<A, F>(cfg: Config<A>, x: A)
    requires Plain(cfg)
    ensures var acts: seq<Act<A, F>> := [Add(A_NAME, true), Ask(A_NAME), Del(A_NAME), Loop(0), Add(B_NAME, true)];
            var v := RunOf(cfg, Initial(), acts).0;
            && Stale(v, 0) && HostOf(cfg, v, B_NAME, 0) == None
            && HostOf(cfg, Step(cfg, v, Result(0, [x], 0)).0, B_NAME, 0) == Some(x)
  {
    hide Step, One;
    var acts: seq<Act<A, F>> := [Add(A_NAME, true), Ask(A_NAME), Del(A_NAME), Loop(0), Add(B_NAME, true)];
    AskedFor<A, F>(cfg);
    DeletedMeanwhile<A, F>(cfg);
    LetMeanwhile<A, F>(cfg, x);
    RunSteps(cfg, Initial(), acts, 5);
    assert acts[..5] == acts;
    hide RunOf, Walk;
    WalkOn(cfg, Initial(), acts, 0);
    WalkOn(cfg, Initial(), acts, 1);
    WalkOn(cfg, Initial(), acts, 2);
    WalkOn(cfg, Initial(), acts, 3);
    WalkOn(cfg, Initial(), acts, 4);
  }

  lemma AskedFor<A, F>(cfg: Config<A>)
    requires Plain(cfg)
    ensures Step(cfg, Step(cfg, Initial<A, F>(), Add(A_NAME, true)).0, Ask(A_NAME)).0
         == One(3, map[A_NAME := 0], Record(0, NoAddrs<A>(), [], 1, 0, 0), [], map[0 := Query(0, 2)], 1, [])
  {
    NamesAreLower();
    var v := Step(cfg, Initial<A, F>(), Add(A_NAME, true)).0;
    assert v.index == map[A_NAME := 0] && v.records == [Record(0, NoAddrs<A>(), [], 1, 0, 0)];
    var w := Step(cfg, v, Ask(A_NAME)).0;
    assert w.queries == map[0 := Query(0, 2)] && w.records == v.records;
  }

  lemma DeletedMeanwhile<A, F>(cfg: Config<A>)
    requires Plain(cfg)
    ensures var v: View<A, F> :=
            One(3, map[A_NAME := 0], Record(0, NoAddrs<A>(), [], 1, 0, 0), [], map[0 := Query(0, 2)], 1, []);
            Step(cfg, Step(cfg, v, Del(A_NAME)).0, Loop(0)).0
            == One(5, map[], Record(0, NoAddrs<A>(), [], 1, 0, 3), [0], map[0 := Query(0, 2)], 1, [])
  {
    NamesAreLower();
    var v: View<A, F> := One(3, map[A_NAME := 0], Record(0, NoAddrs<A>(), [], 1, 0, 0), [], map[0 := Query(0, 2)], 1,
                             []);
    var w := Step(cfg, v, Del(A_NAME)).0;
    assert w.index == map[] && w.stack == [Frame(0, Deletion, 3, false)];
    assert w.records == [Record(0, NoAddrs<A>(), [], 1, 0, 3)];
    var u := Step(cfg, w, Loop(0)).0;
    assert u.stack == [] && u.free == [0] && u.records == w.records;
  }

  lemma LetMeanwhile<A, F>(cfg: Config<A>, x: A)
    requires Plain(cfg)
    ensures var v: View<A, F> := One(5, map[], Record(0, NoAddrs<A>(), [], 1, 0, 3), [0], map[0 := Query(0, 2)], 1, []);
            var w := Step(cfg, v, Add(B_NAME, true)).0;
            && Stale(w, 0) && HostOf(cfg, w, B_NAME, 0) == None
            && HostOf(cfg, Step(cfg, w, Result(0, [x], 0)).0, B_NAME, 0) == Some(x)
  {
    NamesAreLower();
    var v: View<A, F> := One(5, map[], Record(0, NoAddrs<A>(), [], 1, 0, 3), [0], map[0 := Query(0, 2)], 1, []);
    var w := Step(cfg, v, Add(B_NAME, true)).0;
    assert w.index == map[B_NAME := 0] && w.records == [Record(0, NoAddrs<A>(), [], 5, 0, 3)] && w.stack == [];
    var u := Step(cfg, w, Result(0, [x], 0)).0;
    assert u.index == w.index && u.records == [Record(1, FirstAddr(x), [], 5, 6, 6)];
  }

  /**
   The script: deleted and added again meanwhile, the domain gets its own record back; the record was let since, and
   yet the result will reach the domain that asked.
   */
  lemma ComesBackToAsker<A, F>(cfg: Config<A>)
    requires Plain(cfg)
    ensures var acts: seq<Act<A, F>> := [Add(A_NAME, true), Ask(A_NAME), Del(A_NAME), Loop(0), Add(A_NAME, true)];
            var v := RunOf(cfg, Initial(), acts).0;
            && Stale(v, 0) && A_NAME in v.index && v.index[A_NAME] == v.queries[0].record
            && forall n :: n in v.index && v.index[n] == v.queries[0].record ==> n == A_NAME
  {
    hide Step, One;
    var acts: seq<Act<A, F>> := [Add(A_NAME, true), Ask(A_NAME), Del(A_NAME), Loop(0), Add(A_NAME, true)];
    AskedFor<A, F>(cfg);
    DeletedMeanwhile<A, F>(cfg);
    LetBack<A, F>(cfg);
    RunSteps(cfg, Initial(), acts, 5);
    assert acts[..5] == acts;
    hide RunOf, Walk;
    WalkOn(cfg, Initial(), acts, 0);
    WalkOn(cfg, Initial(), acts, 1);
    WalkOn(cfg, Initial(), acts, 2);
    WalkOn(cfg, Initial(), acts, 3);
    WalkOn(cfg, Initial(), acts, 4);
  }

  lemma LetBack<A, F>(cfg: Config<A>)
    requires Plain(cfg)
    ensures var v: View<A, F> := One(5, map[], Record(0, NoAddrs<A>(), [], 1, 0, 3), [0], map[0 := Query(0, 2)], 1, []);
            var w := Step(cfg, v, Add(A_NAME, true)).0;
            Stale(w, 0) && w.index == map[A_NAME := 0] && w.queries[0].record == 0
  {
    NamesAreLower();
    var v: View<A, F> := One(5, map[], Record(0, NoAddrs<A>(), [], 1, 0, 3), [0], map[0 := Query(0, 2)], 1, []);
    var w := Step(cfg, v, Add(A_NAME, true)).0;
    assert w.index == map[A_NAME := 0] && w.records == [Record(0, NoAddrs<A>(), [], 5, 0, 3)];
  }

  // ----- addresses that are not there yet, and old ones

  function FirstOfTwo<A>(x: A, n: nat, busy: bool, began: nat, y: A): Frame<A> {
    Frame(0, Answers([x, y], 0, n), began, busy)
  }

  lemma TwoComeFor<A, F>(cfg: Config<A>, c: F, x: A, y: A, random: nat)
    requires Plain(cfg) && random < 2
    ensures Step(cfg, Step(cfg, Initial(), Start(A_NAME, c, true, true, 0)).0, Result(0, [x, y], random)).0
         == One(3, map[A_NAME := 0], Record(2, FirstAddr(x), [Wait(c, 1, false)], 1, 2, 2), [], map[], 1,
                [FirstOfTwo(x, random, false, 2, y)])
  {
    Started<A, F>(cfg, c);
    var v := Step<A, F>(cfg, Initial(), Start(A_NAME, c, true, true, 0)).0;
    var w := Step(cfg, v, Result(0, [x, y], random)).0;
    assert w.records == [Record(2, FirstAddr(x), [Wait(c, 1, false)], 1, 2, 2)] && w.queries == map[];
    assert w.stack == [FirstOfTwo(x, random, false, 2, y)];
  }

  lemma CalledOfTwo<A, F>(cfg: Config<A>, c: F, x: A, y: A, random: nat)
    requires random < 2
    ensures Step(cfg, One(3, map[A_NAME := 0], Record(2, FirstAddr(x), [Wait(c, 1, false)], 1, 2, 2), [], map[], 1,
                          [FirstOfTwo(x, random, false, 2, y)]), Loop(0))
         == (One(4, map[A_NAME := 0], Record(2, FirstAddr(x), [], 1, 2, 2), [], map[], 1,
                 [FirstOfTwo(x, random, true, 2, y)]),
             [Call(c, Own(if random == 0 then Some(x) else None))])
  {
    var v := One(3, map[A_NAME := 0], Record(2, FirstAddr(x), [Wait(c, 1, false)], 1, 2, 2), [], map[], 1,
                 [FirstOfTwo(x, random, false, 2, y)]);
    var w := Step(cfg, v, Loop(0)).0;
    assert [Wait(c, 1, false)][1..] == [];
    assert w.records == [Record(2, FirstAddr(x), [], 1, 2, 2)] && w.stack == [FirstOfTwo(x, random, true, 2, y)];
    assert FirstAddr(x)[1] == None;
  }

  /** The script: two addresses come, the random number means the second, and who waits is told an empty cell. */
  lemma TellsEmptyCell<A, F>(cfg: Config<A>, c: F, x: A, y: A)
    requires Plain(cfg)
    ensures var acts: seq<Act<A, F>> := [Start(A_NAME, c, true, true, 0), Result(0, [x, y], 1), Loop(0)];
            RunOf(cfg, Initial(), acts).1 == [Call(c, Own(None))]
  {
    var acts: seq<Act<A, F>> := [Start(A_NAME, c, true, true, 0), Result(0, [x, y], 1), Loop(0)];
    Started<A, F>(cfg, c);
    TwoComeFor(cfg, c, x, y, 1);
    CalledOfTwo(cfg, c, x, y, 1);
    TwoCallNobody<A, F>(cfg, c, x, y);
    hide Step, One;
    RunSteps(cfg, Initial(), acts, 3);
    assert acts[..3] == acts;
    hide RunOf, Walk;
    WalkOn(cfg, Initial(), acts, 0);
    WalkOn(cfg, Initial(), acts, 1);
    WalkOn(cfg, Initial(), acts, 2);
    assert Walk(cfg, Initial(), acts, 2).1 == [];
  }

  lemma TwoCallNobody<A, F>(cfg: Config<A>, c: F, x: A, y: A)
    requires Plain(cfg)
    ensures Step(cfg, Step(cfg, Initial(), Start(A_NAME, c, true, true, 0)).0, Result(0, [x, y], 1)).1 == []
  {
    Started<A, F>(cfg, c);
  }

  /** Two results; `inner` is the drain of the second, within the first. */
  function Mixed<A, F>(clock: nat, addrs: seq<Option<A>>, queries: map<nat, Query>, setAt: nat, outer: Frame<A>,
                       inner: seq<Frame<A>>): View<A, F>
  {
    One(clock, map[A_NAME := 0], Record(2, addrs, [], 1, setAt, setAt), [], queries, 2, [outer] + inner)
  }

  lemma AskedInside<A, F>(cfg: Config<A>, x: A, y: A)
    requires Plain(cfg)
    ensures Step(cfg, One(4, map[A_NAME := 0], Record(2, FirstAddr(x), [], 1, 2, 2), [], map[], 1,
                          [FirstOfTwo(x, 0, true, 2, y)]), Act<A, F>.Ask(A_NAME)).0
         == Mixed(5, FirstAddr(x), map[1 := Query(0, 4)], 2, FirstOfTwo(x, 0, true, 2, y), [])
  {
    var w := Step(cfg, One(4, map[A_NAME := 0], Record(2, FirstAddr(x), [], 1, 2, 2), [], map[], 1,
                           [FirstOfTwo(x, 0, true, 2, y)]), Act<A, F>.Ask(A_NAME)).0;
    assert w.queries == map[1 := Query(0, 4)] && [FirstOfTwo(x, 0, true, 2, y)] + [] == [FirstOfTwo(x, 0, true, 2, y)];
  }

  lemma AnsweredInside<A, F>(cfg: Config<A>, x: A, outer: Frame<A>, p: A, q: A)
    requires outer.busy
    ensures Step<A, F>(cfg, Mixed(5, FirstAddr(x), map[1 := Query(0, 4)], 2, outer, []), Result(1, [p, q], 0)).0
         == Mixed(6, FirstAddr(p), map[], 5, outer, [FirstOfTwo(p, 0, false, 5, q)])
  {
    var v: View<A, F> := Mixed(5, FirstAddr(x), map[1 := Query(0, 4)], 2, outer, []);
    var w := Step(cfg, v, Result(1, [p, q], 0)).0;
    assert FirstAddr(x)[0 := Some(p)] == FirstAddr(p);
    assert w.records == [Record(2, FirstAddr(p), [], 1, 5, 5)] && w.queries == map[];
    assert w.stack == [outer] + [FirstOfTwo(p, 0, false, 5, q)];
  }

  lemma CopiedInside<A, F>(cfg: Config<A>, outer: Frame<A>, p: A, q: A)
    ensures Step<A, F>(cfg, Mixed(6, FirstAddr(p), map[], 5, outer, [FirstOfTwo(p, 0, false, 5, q)]), Loop(0)).0
         == Mixed(7, FirstAddr(p)[1 := Some(q)], map[], 5, outer, [Frame(0, Answers([p, q], 1, 0), 5, false)])
  {
    var v: View<A, F> := Mixed(6, FirstAddr(p), map[], 5, outer, [FirstOfTwo(p, 0, false, 5, q)]);
    var w := Step(cfg, v, Loop(0)).0;
    assert w.records == [Record(2, FirstAddr(p)[1 := Some(q)], [], 1, 5, 5)];
    assert w.stack == [outer] + [Frame(0, Answers([p, q], 1, 0), 5, false)];
  }

  lemma EndedInside<A, F>(cfg: Config<A>, outer: Frame<A>, p: A, q: A)
    ensures Step<A, F>(cfg, Mixed(7, FirstAddr(p)[1 := Some(q)], map[], 5, outer,
                                  [Frame(0, Answers([p, q], 1, 0), 5, false)]),
                       Loop(0)).0
         == Mixed(8, FirstAddr(p)[1 := Some(q)], map[], 5, outer, [])
  {
    var v: View<A, F> := Mixed(7, FirstAddr(p)[1 := Some(q)], map[], 5, outer,
                               [Frame(0, Answers([p, q], 1, 0), 5, false)]);
    assert Step(cfg, v, Loop(0)).0.stack == [outer] + [];
  }

  lemma OuterGoesOn<A, F>(cfg: Config<A>, x: A, y: A, p: A, q: A)
    requires Plain(cfg)
    ensures var v: View<A, F> := Mixed(8, FirstAddr(p)[1 := Some(q)], map[], 5, FirstOfTwo(x, 0, true, 2, y), []);
            var v1 := Step(cfg, v, Return).0;
            var v2 := Step(cfg, v1, Loop(0)).0;
            var v3 := Step(cfg, v2, Loop(0)).0;
            v3.stack == [] && HostOf(cfg, v3, A_NAME, 0) == Some(p) && HostOf(cfg, v3, A_NAME, 1) == Some(y)
  {
    var v: View<A, F> := Mixed(8, FirstAddr(p)[1 := Some(q)], map[], 5, FirstOfTwo(x, 0, true, 2, y), []);
    var v1 := Step(cfg, v, Return).0;
    assert v1.stack == [Frame(0, Answers([x, y], 0, 1), 2, false)];
    var v2 := Step(cfg, v1, Loop(0)).0;
    assert FirstAddr(p)[1 := Some(q)][1 := Some(y)] == FirstAddr(p)[1 := Some(y)];
    assert v2.stack == [Frame(0, Answers([x, y], 1, 0), 2, false)];
    assert v2.records == [Record(2, FirstAddr(p)[1 := Some(y)], [], 1, 5, 5)];
    NamesAreLower();
    hide LowerAll;
    var v3 := Step(cfg, v2, Loop(0)).0;
    assert v3.records == v2.records && v3.index == map[A_NAME := 0];
  }

  /**
   The script: while the first of two addresses is handed out two others come for the domain. The older loop goes on
   behind the newer one, and leaves the second of the old ones beside the first of the new.
   */
  lemma MixesAddresses<A, F>(cfg: Config<A>, c: F, x: A, y: A, p: A, q: A)
    requires Plain(cfg)
    ensures var acts: seq<Act<A, F>> := [Start(A_NAME, c, true, true, 0), Result(0, [x, y], 0), Loop(0), Ask(A_NAME),
                                         Result(1, [p, q], 0), Loop(0), Loop(0), Return, Loop(0), Loop(0)];
            var w := RunOf(cfg, Initial(), acts).0;
            w.stack == [] && HostOf(cfg, w, A_NAME, 0) == Some(p) && HostOf(cfg, w, A_NAME, 1) == Some(y)
  {
    var acts: seq<Act<A, F>> := [Start(A_NAME, c, true, true, 0), Result(0, [x, y], 0), Loop(0), Ask(A_NAME),
                                 Result(1, [p, q], 0), Loop(0), Loop(0), Return, Loop(0), Loop(0)];
    var outer := FirstOfTwo(x, 0, true, 2, y);
    TwoComeFor<A, F>(cfg, c, x, y, 0);
    CalledOfTwo<A, F>(cfg, c, x, y, 0);
    AskedInside<A, F>(cfg, x, y);
    AnsweredInside<A, F>(cfg, x, outer, p, q);
    CopiedInside<A, F>(cfg, outer, p, q);
    EndedInside<A, F>(cfg, outer, p, q);
    OuterGoesOn<A, F>(cfg, x, y, p, q);
    hide Step, One, Mixed, HostOf, FirstOfTwo;
    RunSteps(cfg, Initial(), acts, 10);
    assert acts[..10] == acts;
    hide RunOf, Walk;
    WalkOn(cfg, Initial(), acts, 0);
    WalkOn(cfg, Initial(), acts, 1);
    WalkOn(cfg, Initial(), acts, 2);
    WalkOn(cfg, Initial(), acts, 3);
    WalkOn(cfg, Initial(), acts, 4);
    WalkOn(cfg, Initial(), acts, 5);
    WalkOn(cfg, Initial(), acts, 6);
    WalkOn(cfg, Initial(), acts, 7);
    WalkOn(cfg, Initial(), acts, 8);
    WalkOn(cfg, Initial(), acts, 9);
  }
}
