/**
 Timers with owners: while debugging, an event's timer is armed through a node that remembers the footprint its
 owner had, and the user's handler runs only if the owner still has it. Nodes come from a pool that only grows
 and are recycled through a free list; a map from events to nodes says which are in use. Handlers may add and
 delete timers while they run.
 */
module TimerDebug {
  import opened FreeList

  /** The owners' footprints: the word at an offset from an event's data. */
  type Memory = (nat, int) -> nat

  function Write(m: Memory, ev: nat, off: int, fp: nat): Memory {
    (e, o) => if e == ev && o == off then fp else m(e, o)
  }

  // ----- the registry: what may happen to events and their timers

  /** What was recorded when a timer was added, and whether it is in the event loop's tree. */
  datatype Record = Record(footprint: nat, fpoff: int, armed: bool)

  datatype Registry = Registry(mapped: map<nat, Record>, userSet: set<nat>, firing: nat, memory: Memory)

  datatype Event =
    | Added(ev: nat, fpoff: int)
    | AddedAgain(ev: nat, fpoff: int)
    | AddRefused(ev: nat, fpoff: int)
    | Deleted(ev: nat, footprint: nat)
    | DelRefused(ev: nat, footprint: nat)
    | DeletedTwice(ev: nat)
    | Called(ev: nat)
    | NotOwner(ev: nat)
    | NotDue(ev: nat)
    | Returned
    | Stamped(ev: nat, off: int, footprint: nat)

  ghost predicate Legal(r: Registry, e: Event) {
    match e
    case Added(ev, _) => ev !in r.mapped
    case AddedAgain(ev, off) => ev in r.mapped && r.mapped[ev].footprint == r.memory(ev, off)
    case AddRefused(ev, off) => ev in r.mapped && r.mapped[ev].footprint != r.memory(ev, off)
    case Deleted(ev, fp) => ev in r.mapped && r.mapped[ev].footprint == fp
    case DelRefused(ev, fp) => ev in r.mapped && r.mapped[ev].footprint != fp
    case DeletedTwice(ev) => ev !in r.mapped
    case Called(ev) =>
      && ev in r.mapped && r.mapped[ev].armed
      && r.memory(ev, r.mapped[ev].fpoff) == r.mapped[ev].footprint
    case NotOwner(ev) =>
      && ev in r.mapped && r.mapped[ev].armed
      && r.memory(ev, r.mapped[ev].fpoff) != r.mapped[ev].footprint
    case NotDue(ev) => ev in r.mapped ==> !r.mapped[ev].armed
    case Returned => r.firing > 0
    case Stamped(_, _, _) => true
  }

  ghost function Armed(r: Registry, ev: nat, armed: bool): map<nat, Record> {
    if ev in r.mapped then r.mapped[ev := r.mapped[ev].(armed := armed)] else r.mapped
  }

  ghost function After(r: Registry, e: Event): Registry {
    match e
    case Added(ev, off) =>
      r.(mapped := r.mapped[ev := Record(r.memory(ev, off), off, true)], userSet := r.userSet + {ev})
    case AddedAgain(ev, _) => r.(mapped := Armed(r, ev, true), userSet := r.userSet + {ev})
    case Deleted(ev, _) =>
      r.(mapped := r.mapped - {ev},
         userSet := if ev in r.mapped && r.mapped[ev].armed then r.userSet - {ev} else r.userSet)
    case Called(ev) => r.(mapped := r.mapped - {ev}, userSet := r.userSet - {ev}, firing := r.firing + 1)
    case NotOwner(ev) => r.(mapped := Armed(r, ev, false))
    case Returned => r.(firing := if r.firing > 0 then r.firing - 1 else 0)
    case Stamped(ev, off, fp) => r.(memory := Write(r.memory, ev, off, fp))
    case _ => r
  }

  ghost predicate LegalRun(r: Registry, log: seq<Event>)
    decreases log
  {
    log == [] || (Legal(r, log[0]) && LegalRun(After(r, log[0]), log[1..]))
  }

  ghost function AfterAll(r: Registry, log: seq<Event>): Registry
    decreases log
  {
    if log == [] then r else AfterAll(After(r, log[0]), log[1..])
  }

  lemma {:induction false} RunsCompose(r: Registry, a: seq<Event>, b: seq<Event>)
    ensures LegalRun(r, a + b) <==> LegalRun(r, a) && LegalRun(AfterAll(r, a), b)
    ensures AfterAll(r, a + b) == AfterAll(AfterAll(r, a), b)
    decreases a
  {
    if a == [] {
      assert a + b == b;
    } else {
      assert (a + b)[1..] == a[1..] + b;
      RunsCompose(After(r, a[0]), a[1..], b);
    }
  }

  lemma RunOfOne(r: Registry, e: Event)
    ensures (LegalRun(r, [e]) <==> Legal(r, e)) && AfterAll(r, [e]) == After(r, e)
  {
    assert [e][1..] == [];
    assert LegalRun(After(r, e), []);
  }

  lemma RunOfNone(r: Registry)
    ensures LegalRun(r, []) && AfterAll(r, []) == r
  {
  }

  /** Where a run stands before its k-th event. */
  ghost function Before(r: Registry, log: seq<Event>, k: nat): Registry
    requires k <= |log|
    decreases log
  {
    if k == 0 then r else Before(After(r, log[0]), log[1..], k - 1)
  }

  /** Events with which a record comes or goes. */
  predicate Settles(e: Event, ev: nat) {
    match e
    case Added(v, _) => v == ev
    case Deleted(v, _) => v == ev
    case Called(v) => v == ev
    case _ => false
  }

  /** The j-th event adds the timer that the k-th calls, and the owner is the same. */
  ghost predicate AddOf(r: Registry, log: seq<Event>, j: int, k: int) {
    && 0 <= j < k < |log| && log[k].Called? && log[j].Added? && log[j].ev == log[k].ev
    && Before(r, log, j).memory(log[k].ev, log[j].fpoff) == Before(r, log, k).memory(log[k].ev, log[j].fpoff)
    && forall m :: j < m < k ==> !Settles(log[m], log[k].ev)
  }

  /**
   The promise of the wrapper, over a whole run: when a user's handler is called, the owner's footprint is the one
   it had when the timer was first added, and the timer was neither deleted nor called since.
   */
  lemma {:induction false} CallHasItsOwner(r: Registry, log: seq<Event>, k: nat)
    requires LegalRun(r, log) && k < |log| && log[k].Called?
    ensures var ev := log[k].ev;
            var now := Before(r, log, k);
            || (ev in r.mapped && r.mapped[ev].footprint == now.memory(ev, r.mapped[ev].fpoff)
                && forall m :: 0 <= m < k ==> !Settles(log[m], ev))
            || exists j :: AddOf(r, log, j, k)
    decreases log
  {
    if k > 0 {
      var ev := log[k].ev;
      var r', rest := After(r, log[0]), log[1..];
      CallHasItsOwner(r', rest, k - 1);
      var k' := k - 1;
      assert forall m :: 0 < m < k ==> log[m] == rest[m - 1];
      if j :| AddOf(r', rest, j, k') {
        assert log[j + 1] == rest[j] && Before(r, log, j + 1) == Before(r', rest, j);
        assert AddOf(r, log, j + 1, k);
      } else if log[0] == Added(ev, r'.mapped[ev].fpoff) {
        assert AddOf(r, log, 0, k);
      }
    }
  }

  // ----- scripts

  /** What users do and what the event loop does; `during` is what the user's handler does. */
  datatype Action =
    | Add(ev: nat, fpoff: int)
    | Del(ev: nat, footprint: nat)
    | Expire(ev: nat, during: seq<Action>)
    | Stamp(ev: nat, off: int, footprint: nat)

  ghost function AddEvent(r: Registry, ev: nat, off: int): Event {
    if ev !in r.mapped then Added(ev, off)
    else if r.mapped[ev].footprint == r.memory(ev, off) then AddedAgain(ev, off)
    else AddRefused(ev, off)
  }

  ghost function DelEvent(r: Registry, ev: nat, fp: nat): Event {
    if ev !in r.mapped then DeletedTwice(ev)
    else if r.mapped[ev].footprint == fp then Deleted(ev, fp)
    else DelRefused(ev, fp)
  }

  /** What an action comes to; a handler's own actions stand between its call and its return. */
  ghost function LogOf(r: Registry, a: Action): seq<Event>
    decreases a
  {
    match a
    case Add(ev, off) => [AddEvent(r, ev, off)]
    case Del(ev, fp) => [DelEvent(r, ev, fp)]
    case Stamp(ev, off, fp) => [Stamped(ev, off, fp)]
    case Expire(ev, during) =>
      if ev !in r.mapped || !r.mapped[ev].armed then [NotDue(ev)]
      else if r.memory(ev, r.mapped[ev].fpoff) != r.mapped[ev].footprint then [NotOwner(ev)]
      else [Called(ev)] + LogOfAll(After(r, Called(ev)), during) + [Returned]
  }

  ghost function LogOfAll(r: Registry, script: seq<Action>): seq<Event>
    decreases script
  {
    if script == [] then []
    else
      var first := LogOf(r, script[0]);
      first + LogOfAll(AfterAll(r, first), script[1..])
  }

  lemma {:induction false} LogOfMore(r: Registry, script: seq<Action>, more: seq<Action>)
    ensures var log := LogOfAll(r, script);
            LogOfAll(r, script + more) == log + LogOfAll(AfterAll(r, log), more)
    decreases script
  {
    hide LogOf, AfterAll;
    if script == [] {
      assert script + more == more;
      RunOfNone(r);
    } else {
      var first := LogOf(r, script[0]);
      var log := LogOfAll(AfterAll(r, first), script[1..]);
      assert (script + more)[1..] == script[1..] + more;
      LogOfMore(AfterAll(r, first), script[1..], more);
      RunsCompose(r, first, log);
    }
  }

  lemma LogOfOne(r: Registry, a: Action)
    ensures LogOfAll(r, [a]) == LogOf(r, a)
  {
    hide LogOf, AfterAll;
    assert [a][1..] == [];
    assert LogOfAll(AfterAll(r, LogOf(r, a)), []) == [];
  }

  /** Events after which a timer that was added may no longer be armed. */
  predicate Disarms(e: Event, ev: nat) {
    Settles(e, ev) || e == NotOwner(ev)
  }

  /** A timer stays armed, with what was recorded of its owner, until it is settled or met another owner. */
  lemma {:induction false} StaysArmed(r: Registry, log: seq<Event>, ev: nat)
    requires ev in r.mapped && r.mapped[ev].armed && forall m :: 0 <= m < |log| ==> !Disarms(log[m], ev)
    ensures var w := AfterAll(r, log); ev in w.mapped && w.mapped[ev] == r.mapped[ev]
    decreases log
  {
    if log != [] {
      assert !Disarms(log[0], ev);
      forall m | 0 <= m < |log[1..]| ensures !Disarms(log[1..][m], ev) {
        assert !Disarms(log[m + 1], ev);
      }
      StaysArmed(After(r, log[0]), log[1..], ev);
    }
  }

  lemma {:induction false} AddedStaysArmed(r: Registry, log: seq<Event>, j: nat, ev: nat, off: int)
    requires j < |log| && log[j] == Added(ev, off) && forall m :: j < m < |log| ==> !Disarms(log[m], ev)
    ensures var w := AfterAll(r, log);
            ev in w.mapped && w.mapped[ev] == Record(Before(r, log, j).memory(ev, off), off, true)
    decreases log
  {
    if j > 0 {
      AddedStaysArmed(After(r, log[0]), log[1..], j - 1, ev, off);
    } else {
      StaysArmed(After(r, log[0]), log[1..], ev);
    }
  }

  // ----- an action anywhere in a script

  /** The timer is due, and its owner still the same. */
  ghost predicate Fires(r: Registry, a: Action) {
    && a.Expire? && a.ev in r.mapped && r.mapped[a.ev].armed
    && r.memory(a.ev, r.mapped[a.ev].fpoff) == r.mapped[a.ev].footprint
  }

  /**
   A path names an action: an index into the script, then one into what the handler called there does, and so on.
   It is reached if every timer on the way fires.
   */
  ghost predicate Reached(r: Registry, script: seq<Action>, path: seq<nat>)
    decreases path
  {
    && path != [] && path[0] < |script|
    && (|path| > 1 ==>
          var a, w := script[path[0]], AfterAll(r, LogOfAll(r, script[..path[0]]));
          Fires(w, a) && Reached(After(w, Called(a.ev)), a.during, path[1..]))
  }

  ghost function ActionAt(r: Registry, script: seq<Action>, path: seq<nat>): Action
    requires Reached(r, script, path)
    decreases path
  {
    var a, w := script[path[0]], AfterAll(r, LogOfAll(r, script[..path[0]]));
    if |path| == 1 then a else ActionAt(After(w, Called(a.ev)), a.during, path[1..])
  }

  /** The events before the action at the path. */
  ghost function LogBefore(r: Registry, script: seq<Action>, path: seq<nat>): seq<Event>
    requires Reached(r, script, path)
    decreases path
  {
    var before := LogOfAll(r, script[..path[0]]);
    if |path| == 1 then before
    else
      var a, w := script[path[0]], AfterAll(r, before);
      before + [Called(a.ev)] + LogBefore(After(w, Called(a.ev)), a.during, path[1..])
  }

  lemma ActionInScript(r: Registry, script: seq<Action>, i: nat)
    requires i < |script|
    ensures var before := LogOfAll(r, script[..i]);
            before + LogOf(AfterAll(r, before), script[i]) <= LogOfAll(r, script)
  {
    hide LogOf, LogOfAll, AfterAll;
    var w := AfterAll(r, LogOfAll(r, script[..i]));
    assert script == script[..i] + ([script[i]] + script[i + 1..]);
    LogOfMore(r, script[..i], [script[i]] + script[i + 1..]);
    LogOfMore(w, [script[i]], script[i + 1..]);
    LogOfOne(w, script[i]);
  }

  /** What the action at the path comes to stands in the log of the script, behind the events before it. */
  lemma {:induction false} ActionInLog(r: Registry, script: seq<Action>, path: seq<nat>)
    requires Reached(r, script, path)
    ensures var before := LogBefore(r, script, path);
            before + LogOf(AfterAll(r, before), ActionAt(r, script, path)) <= LogOfAll(r, script)
    decreases path
  {
    hide LogOf, LogOfAll, AfterAll, After, LogBefore, ActionAt, Reached;
    PathIs(r, script, path);
    ActionInScript(r, script, path[0]);
    if |path| > 1 {
      var before := LogOfAll(r, script[..path[0]]);
      var a, w := script[path[0]], AfterAll(r, before);
      var call := Called(a.ev);
      ActionInLog(After(w, call), a.during, path[1..]);
      CallsInside(w, a);
      StepInside(r, before, a, call, LogBefore(After(w, call), a.during, path[1..]),
                 ActionAt(After(w, call), a.during, path[1..]), LogOfAll(After(w, call), a.during),
                 LogOfAll(r, script));
    }
  }

  lemma PathIs(r: Registry, script: seq<Action>, path: seq<nat>)
    requires Reached(r, script, path)
    ensures path != [] && path[0] < |script|
    ensures var before := LogOfAll(r, script[..path[0]]);
            var a, w := script[path[0]], AfterAll(r, before);
            if |path| == 1 then LogBefore(r, script, path) == before && ActionAt(r, script, path) == a
            else
              && Fires(w, a)
              && var u := After(w, Called(a.ev));
                 && Reached(u, a.during, path[1..])
                 && LogBefore(r, script, path) == before + [Called(a.ev)] + LogBefore(u, a.during, path[1..])
                 && ActionAt(r, script, path) == ActionAt(u, a.during, path[1..])
  {
    hide LogOfAll, AfterAll, After, Fires;
  }

  lemma CallsInside(w: Registry, a: Action)
    requires Fires(w, a)
    ensures LogOf(w, a) == [Called(a.ev)] + LogOfAll(After(w, Called(a.ev)), a.during) + [Returned]
  {
    hide LogOfAll, After;
  }

  /** `some` comes first in what the handler of `a` does, and `action` behind it. */
  lemma StepInside(r: Registry, before: seq<Event>, a: Action, call: Event, some: seq<Event>, action: Action,
                   body: seq<Event>, log: seq<Event>)
    requires var w := AfterAll(r, before);
             && LogOf(w, a) == [call] + body + [Returned] && before + LogOf(w, a) <= log
             && some + LogOf(AfterAll(After(w, call), some), action) <= body
    ensures var b := before + [call] + some; b + LogOf(AfterAll(r, b), action) <= log
  {
    hide LogOf, AfterAll, After;
    var w, b := AfterAll(r, before), before + [call] + some;
    RunOfOne(w, call);
    RunsCompose(w, [call], some);
    RunsCompose(r, before, [call] + some);
    assert before + ([call] + some) == b;
    Within(before, call, some, LogOf(AfterAll(r, b), action), body, log);
  }

  lemma Within(before: seq<Event>, call: Event, some: seq<Event>, more: seq<Event>, body: seq<Event>, log: seq<Event>)
    requires some + more <= body && before + ([call] + body + [Returned]) <= log
    ensures before + [call] + some + more <= log
  {
    var rest := body[|some + more|..];
    assert body == some + more + rest;
    assert before + ([call] + body + [Returned]) == before + [call] + some + more + (rest + [Returned]);
  }

  /**
   The other half of the promise: an action anywhere in a script, a handler's own included, finds due a timer that
   was added by the j-th event before it and neither deleted, called nor refused since. Then that action calls the
   user's handler if and only if the owner's footprint is the one it had at that add.
   */
  lemma ExpiryCallsIffOwner(r: Registry, script: seq<Action>, path: seq<nat>, j: nat, off: int)
    requires Reached(r, script, path) && ActionAt(r, script, path).Expire?
    requires var ev, before := ActionAt(r, script, path).ev, LogBefore(r, script, path);
             && j < |before| && before[j] == Added(ev, off)
             && forall m :: j < m < |before| ==> !Disarms(before[m], ev)
    ensures var a, before := ActionAt(r, script, path), LogBefore(r, script, path);
            var now, log := AfterAll(r, before), LogOfAll(r, script);
            var call := [Called(a.ev)] + LogOfAll(After(now, Called(a.ev)), a.during) + [Returned];
            if now.memory(a.ev, off) == Before(r, before, j).memory(a.ev, off) then before + call <= log
            else before + [NotOwner(a.ev)] <= log
  {
    var a, before := ActionAt(r, script, path), LogBefore(r, script, path);
    hide LogOfAll, AfterAll, Before, LogBefore, ActionAt, Reached;
    var now := AfterAll(r, before);
    AddedStaysArmed(r, before, j, a.ev, off);
    ActionInLog(r, script, path);
    var call := [Called(a.ev)] + LogOfAll(After(now, Called(a.ev)), a.during) + [Returned];
    assert LogOf(now, a)
        == if now.memory(a.ev, off) == Before(r, before, j).memory(a.ev, off) then call else [NotOwner(a.ev)];
    hide LogOf;
  }

  // ----- adding again and deleting

  /** The owner's footprint that was recorded stays as long as the timer is not settled, armed or not. */
  lemma {:induction false} StaysMapped(r: Registry, log: seq<Event>, ev: nat)
    requires ev in r.mapped && forall m :: 0 <= m < |log| ==> !Settles(log[m], ev)
    ensures var w := AfterAll(r, log);
            && ev in w.mapped && w.mapped[ev].footprint == r.mapped[ev].footprint
            && w.mapped[ev].fpoff == r.mapped[ev].fpoff
    decreases log
  {
    if log != [] {
      assert !Settles(log[0], ev);
      forall m | 0 <= m < |log[1..]| ensures !Settles(log[1..][m], ev) {
        assert !Settles(log[m + 1], ev);
      }
      StaysMapped(After(r, log[0]), log[1..], ev);
    }
  }

  lemma {:induction false} AddedStaysMapped(r: Registry, log: seq<Event>, j: nat, ev: nat, off: int)
    requires j < |log| && log[j] == Added(ev, off) && forall m :: j < m < |log| ==> !Settles(log[m], ev)
    ensures var w := AfterAll(r, log); ev in w.mapped && w.mapped[ev].footprint == Before(r, log, j).memory(ev, off)
    decreases log
  {
    if j > 0 {
      AddedStaysMapped(After(r, log[0]), log[1..], j - 1, ev, off);
    } else {
      StaysMapped(After(r, log[0]), log[1..], ev);
    }
  }

  /**
   Anywhere in a script, on a timer that was added by the j-th event before and not settled since: adding it again
   arms it if and only if the footprint is the one its owner had at that add, and deleting it succeeds if and only if
   that is the footprint given.
   */
  lemma AgainIffOwner(r: Registry, script: seq<Action>, path: seq<nat>, j: nat, off: int)
    requires Reached(r, script, path) && (ActionAt(r, script, path).Add? || ActionAt(r, script, path).Del?)
    requires var ev, before := ActionAt(r, script, path).ev, LogBefore(r, script, path);
             && j < |before| && before[j] == Added(ev, off)
             && forall m :: j < m < |before| ==> !Settles(before[m], ev)
    ensures var a, before := ActionAt(r, script, path), LogBefore(r, script, path);
            var owner := Before(r, before, j).memory(a.ev, off);
            var event := match a
                         case Add(ev, off2) =>
                           (if AfterAll(r, before).memory(ev, off2) == owner then AddedAgain(ev, off2)
                            else AddRefused(ev, off2))
                         case Del(ev, fp) => (if fp == owner then Deleted(ev, fp) else DelRefused(ev, fp))
                         case _ => Returned;
            before + [event] <= LogOfAll(r, script)
  {
    var a, before := ActionAt(r, script, path), LogBefore(r, script, path);
    hide LogOfAll, AfterAll, Before, LogBefore, ActionAt, Reached;
    AddedStaysMapped(r, before, j, a.ev, off);
    ActionInLog(r, script, path);
  }

  // ----- the nodes

  /** A node, known by its place in the pool: the map entry, the event loop's event and the free link in one. */
  datatype Node = Node(footprint: nat, fpoff: int, timerSet: bool, uev: nat, next: Data<()>)

  const ZERO: Node := Node(0, 0, false, 0, Null)

  ghost function Nexts(nodes: seq<Node>): (cells: seq<Data<()>>)
    ensures |cells| == |nodes| && forall i :: 0 <= i < |nodes| ==> cells[i] == nodes[i].next
  {
    Cells(nodes, (n: Node) => n.next)
  }

  /** The map's nodes are `live`, each mapped from its own event; only they can be armed. */
  ghost predicate Mapping(nodes: seq<Node>, mapped: map<nat, nat>, live: set<nat>) {
    && (forall e :: e in mapped ==> mapped[e] in live)
    && (forall i :: i in live ==> i < |nodes| && nodes[i].uev in mapped && mapped[nodes[i].uev] == i)
    && (forall e :: e in mapped && mapped[e] < |nodes| ==> nodes[mapped[e]].uev == e)
    && (forall i :: 0 <= i < |nodes| && nodes[i].timerSet ==> i in live)
  }

  ghost predicate Mapped(nodes: seq<Node>, mapped: map<nat, nat>) {
    forall e :: e in mapped ==> mapped[e] < |nodes|
  }

  ghost function Records(nodes: seq<Node>, mapped: map<nat, nat>): map<nat, Record>
    requires Mapped(nodes, mapped)
  {
    map e | e in mapped :: var n := nodes[mapped[e]]; Record(n.footprint, n.fpoff, n.timerSet)
  }

  lemma NotArmed(nodes: seq<Node>, mapped: map<nat, nat>, live: set<nat>, n: nat)
    requires Mapping(nodes, mapped, live) && n < |nodes| && n !in live
    ensures !nodes[n].timerSet
  {
  }

  /** Nodes that are not in the map may change, and new ones come, as long as they are not armed. */
  lemma MappingKept(nodes: seq<Node>, nodes': seq<Node>, mapped: map<nat, nat>, live: set<nat>)
    requires Mapping(nodes, mapped, live) && |nodes| <= |nodes'|
    requires forall i :: i in live && i < |nodes| ==> nodes'[i] == nodes[i]
    requires forall i :: 0 <= i < |nodes'| && nodes'[i].timerSet ==> i < |nodes| && nodes[i].timerSet
    ensures Mapping(nodes', mapped, live) && Mapped(nodes, mapped) && Mapped(nodes', mapped)
    ensures Records(nodes', mapped) == Records(nodes, mapped)
  {
  }

  lemma MapIn(nodes: seq<Node>, mapped: map<nat, nat>, live: set<nat>, ev: nat, n: nat, node: Node)
    requires Mapping(nodes, mapped, live) && Mapped(nodes, mapped)
    requires n < |nodes| && n !in live && ev !in mapped && node.uev == ev && node.timerSet
    ensures var nodes', mapped' := nodes[n := node], mapped[ev := n];
            && Mapping(nodes', mapped', live + {n}) && Mapped(nodes', mapped')
            && Records(nodes', mapped') == Records(nodes, mapped)[ev := Record(node.footprint, node.fpoff, true)]
  {
  }

  lemma MapSet(nodes: seq<Node>, mapped: map<nat, nat>, live: set<nat>, ev: nat, armed: bool)
    requires Mapping(nodes, mapped, live) && Mapped(nodes, mapped) && ev in mapped
    ensures var n := mapped[ev];
            var nodes' := nodes[n := nodes[n].(timerSet := armed)];
            && Mapping(nodes', mapped, live) && Mapped(nodes', mapped) && n in live
            && Records(nodes, mapped)[ev] == Record(nodes[n].footprint, nodes[n].fpoff, nodes[n].timerSet)
            && Records(nodes', mapped) == Records(nodes, mapped)[ev := Records(nodes, mapped)[ev].(armed := armed)]
  {
  }

  lemma MapOut(nodes: seq<Node>, mapped: map<nat, nat>, live: set<nat>, ev: nat)
    requires Mapping(nodes, mapped, live) && Mapped(nodes, mapped) && ev in mapped
    ensures var n := mapped[ev];
            var nodes' := nodes[n := nodes[n].(timerSet := false)];
            && Mapping(nodes', mapped - {ev}, live - {n}) && Mapped(nodes', mapped - {ev}) && n in live
            && Records(nodes', mapped - {ev}) == Records(nodes, mapped) - {ev}
  {
  }

  class Timers {
    var ready: bool
    var nodes: seq<Node>
    var mapped: map<nat, nat>
    var freeNode: Data<()>
    var nalloc: nat
    var nfree: nat
    /** The timer_set flags of users' events. */
    var userSet: set<nat>
    /** Owned by the users. */
    var memory: Memory

    ghost var free: seq<nat>
    ghost var live: set<nat>
    /** Nodes of running handlers. */
    ghost var taken: set<nat>

    ghost predicate Valid()
      reads this
    {
      && nalloc == |nodes| && nfree == |free|
      && Threaded(Nexts(nodes), free, freeNode)
      && Partition(|nodes|, free, live, taken)
      && Mapping(nodes, mapped, live) && Mapped(nodes, mapped)
      && (!ready ==> nodes == [])
    }

    ghost function State(): Registry
      reads this
      requires Valid()
    {
      Registry(Records(nodes, mapped), userSet, |taken|, memory)
    }

    /** Every node is free, in the map, or held by a running handler; and every event in the map has its own. */
    lemma Conserved()
      requires Valid()
      ensures nalloc == nfree + |mapped.Keys| + |taken|
      ensures forall i :: 0 <= i < |nodes| && nodes[i].timerSet ==> nodes[i].uev in mapped && mapped[nodes[i].uev] == i
    {
      Counts(|nodes|, free, live, taken);
      AsMany(mapped, live);
    }

    constructor (memory: Memory)
      ensures Valid() && State() == Registry(map[], {}, 0, memory)
    {
      this.memory := memory;
      ready, nodes, mapped, freeNode, nalloc, nfree, userSet := false, [], map[], Null, 0, 0, {};
      free, live, taken := [], {}, {};
    }

    /** ngx_timerd_init, on the first add */
    method Init()
      requires Valid()
      modifies this`ready, this`mapped, this`freeNode, this`nalloc, this`nfree, this`free, this`live, this`taken
      ensures Valid() && State() == old(State()) && taken == old(taken) && ready && mapped == old(mapped)
    {
      hide Threaded, Partition;
      Empty();
      if ready {
        return;
      }
      ready, mapped, freeNode, nalloc, nfree := true, map[], Null, 0, 0;
      free, live, taken := [], {}, {};
    }

    lemma Empty()
      requires Valid()
      ensures nodes == [] ==> free == [] && live == {} && taken == {} && mapped == map[] && freeNode == Null
    {
      if nodes == [] {
        assert forall i :: i !in free && i !in live && i !in taken;
      }
    }

    /** get_node: a cleared node, the last one freed if there is one. */
    method GetNode() returns (n: nat)
      requires Valid() && ready
      modifies this`nodes, this`freeNode, this`nalloc, this`nfree, this`free, this`taken
      ensures Valid() && n !in old(taken) && taken == old(taken) + {n} && n < |nodes| && nodes[n] == ZERO
      ensures State() == old(State()).(firing := |taken|)
      ensures |nodes| == |old(nodes)| + if old(freeNode) == Null then 1 else 0
    {
      if freeNode == Null {
        n := NewNode();
      } else {
        n := ReusedNode();
      }
    }

    method NewNode() returns (n: nat)
      requires Valid() && ready
      modifies this`nodes, this`nalloc, this`taken
      ensures Valid() && n !in old(taken) && taken == old(taken) + {n} && n < |nodes| && nodes[n] == ZERO
      ensures State() == old(State()).(firing := |taken|) && |nodes| == |old(nodes)| + 1
    {
      hide Threaded, Mapping, Mapped, Records;
      ghost var was := nodes;
      n := |nodes|;
      nodes := nodes + [ZERO];
      nalloc := nalloc + 1;
      ThreadedKept(Nexts(was), Nexts(nodes), free, freeNode);
      MappingKept(was, nodes, mapped, live);
      taken := taken + {n};
    }

    method ReusedNode() returns (n: nat)
      requires Valid() && ready && freeNode != Null
      modifies this`nodes, this`freeNode, this`nfree, this`free, this`taken
      ensures Valid() && n !in old(taken) && taken == old(taken) + {n} && n < |nodes| && nodes[n] == ZERO
      ensures State() == old(State()).(firing := |taken|) && |nodes| == |old(nodes)|
    {
      hide Threaded, Mapping, Mapped, Records;
      ghost var was := nodes;
      ThreadedHead(Nexts(nodes), free, freeNode);
      ThreadedPop(Nexts(nodes), free, freeNode);
      n := freeNode.slot;
      freeNode := nodes[n].next;
      nodes := nodes[n := ZERO];
      nfree := nfree - 1;
      free := free[1..];
      ThreadedKept(Nexts(was), Nexts(nodes), free, freeNode);
      MappingKept(was, nodes, mapped, live);
      taken := taken + {n};
    }

    /** put_node */
    method PutNode(n: nat)
      requires Valid() && n in taken
      modifies this`nodes, this`freeNode, this`nfree, this`free, this`taken
      ensures Valid() && taken == old(taken) - {n} && free == [n] + old(free)
      ensures State() == old(State()).(firing := |taken|)
    {
      hide Threaded, Mapping, Mapped, Records;
      NotArmed(nodes, mapped, live, n);
      ghost var was := nodes;
      nodes := nodes[n := nodes[n].(next := freeNode)];
      ThreadedPush(Nexts(was), Nexts(nodes), free, freeNode, n);
      MappingKept(was, nodes, mapped, live);
      freeNode := Next(n);
      nfree := nfree + 1;
      free := [n] + free;
      taken := taken - {n};
    }

    /** A taken node goes into the map, armed. */
    method Map(n: nat, ev: nat, fp: nat, fpoff: int)
      requires Valid() && n in taken && ev !in mapped
      modifies this`nodes, this`mapped, this`userSet, this`live, this`taken
      ensures Valid() && taken == old(taken) - {n}
      ensures var r := old(State());
              State() == Registry(r.mapped[ev := Record(fp, fpoff, true)], r.userSet + {ev}, |taken|, r.memory)
    {
      hide Threaded, Mapping, Mapped, Records;
      ghost var was := nodes;
      MapIn(nodes, mapped, live, ev, n, Node(fp, fpoff, true, ev, nodes[n].next));
      nodes := nodes[n := Node(fp, fpoff, true, ev, nodes[n].next)];
      ThreadedKept(Nexts(was), Nexts(nodes), free, freeNode);
      mapped := mapped[ev := n];
      userSet := userSet + {ev};
      live, taken := live + {n}, taken - {n};
    }

    /** The node of a mapped event enters the event loop's tree or leaves it. */
    method SetTimer(ev: nat, armed: bool)
      requires Valid() && ev in mapped
      modifies this`nodes
      ensures Valid()
      ensures var r := old(State());
              State() == r.(mapped := r.mapped[ev := r.mapped[ev].(armed := armed)])
    {
      hide Threaded, Mapping, Mapped, Records;
      ghost var was := nodes;
      var n := mapped[ev];
      MapSet(nodes, mapped, live, ev, armed);
      Bounded(n);
      nodes := nodes[n := nodes[n].(timerSet := armed)];
      ThreadedKept(Nexts(was), Nexts(nodes), free, freeNode);
    }

    /** The node of a mapped event leaves the map and the event loop's tree. */
    method Unmap(ev: nat) returns (n: nat)
      requires Valid() && ev in mapped
      modifies this`nodes, this`mapped, this`live, this`taken
      ensures Valid() && n !in old(taken) && taken == old(taken) + {n}
      ensures var r := old(State()); State() == Registry(r.mapped - {ev}, r.userSet, |taken|, r.memory)
    {
      hide Threaded, Mapping, Mapped, Records;
      ghost var was := nodes;
      n := mapped[ev];
      MapOut(nodes, mapped, live, ev);
      Bounded(n);
      nodes := nodes[n := nodes[n].(timerSet := false)];
      ThreadedKept(Nexts(was), Nexts(nodes), free, freeNode);
      mapped := mapped - {ev};
      live, taken := live - {n}, taken + {n};
    }

    /** The timer_set flag of a user's event. */
    method Flag(ev: nat, on: bool)
      requires Valid()
      modifies this`userSet
      ensures Valid()
      ensures var r := old(State());
              State() == r.(userSet := if on then r.userSet + {ev} else r.userSet - {ev})
    {
      hide Threaded, Mapping, Mapped, Records, Partition;
      userSet := if on then userSet + {ev} else userSet - {ev};
    }

    lemma Bounded(n: nat)
      requires Partition(|nodes|, free, live, taken)
      ensures n in live ==> n < |nodes| && n !in free && n !in taken
    {
    }

    /** What the map says of an event is what its node holds. */
    lemma NodeOf(ev: nat)
      requires Valid() && ev in mapped
      ensures mapped[ev] < |nodes| && ev in State().mapped
      ensures var n := nodes[mapped[ev]]; State().mapped[ev] == Record(n.footprint, n.fpoff, n.timerSet)
    {
    }

    lemma SameEvents()
      requires Valid()
      ensures State().mapped.Keys == mapped.Keys && State().memory == memory && State().firing == |taken|
    {
    }

    /** ngx_add_timer_debug */
    method AddTimer(ev: nat, fpoff: int) returns (e: Event)
      requires Valid()
      modifies this
      ensures Valid() && taken == old(taken)
      ensures e == AddEvent(old(State()), ev, fpoff)
      ensures Legal(old(State()), e) && State() == After(old(State()), e)
    {
      hide Valid, State;
      Init();
      var fp := memory(ev, fpoff);
      SameEvents();
      if ev !in mapped {
        var n := GetNode();
        Map(n, ev, fp, fpoff);
        return Added(ev, fpoff);
      }
      NodeOf(ev);
      if nodes[mapped[ev]].footprint != fp {
        return AddRefused(ev, fpoff);
      }
      Flag(ev, true);
      SetTimer(ev, true);
      return AddedAgain(ev, fpoff);
    }

    /** ngx_del_timer_debug */
    method DelTimer(ev: nat, footprint: nat) returns (e: Event)
      requires Valid()
      modifies this
      ensures Valid() && taken == old(taken)
      ensures e == DelEvent(old(State()), ev, footprint)
      ensures Legal(old(State()), e) && State() == After(old(State()), e)
    {
      hide Valid, State;
      SameEvents();
      if ev !in mapped {
        return DeletedTwice(ev);
      }
      NodeOf(ev);
      if nodes[mapped[ev]].footprint != footprint {
        return DelRefused(ev, footprint);
      }
      var armed := nodes[mapped[ev]].timerSet;
      var n := Unmap(ev);
      if armed {
        Flag(ev, false);
      }
      PutNode(n);
      return Deleted(ev, footprint);
    }

    /**
     The event loop finds the timer of `ev` due and calls ngx_timerd_wrap, which calls the user's handler only if
     the owner still has the footprint it had; `during` is what that handler does. A timer without its owner
     stays in the map, unarmed.
     */
    method Wrap(ev: nat, during: seq<Action>) returns (log: seq<Event>)
      requires Valid()
      modifies this
      ensures Valid() && taken == old(taken)
      ensures log == LogOf(old(State()), Expire(ev, during))
      ensures LegalRun(old(State()), log) && State() == AfterAll(old(State()), log)
      decreases during, 1
    {
      hide Valid, State, LegalRun, AfterAll;
      ghost var start := State();
      SameEvents();
      if ev !in mapped {
        RunOfOne(start, NotDue(ev));
        return [NotDue(ev)];
      }
      NodeOf(ev);
      var node := nodes[mapped[ev]];
      if !node.timerSet {
        RunOfOne(start, NotDue(ev));
        return [NotDue(ev)];
      }
      if memory(ev, node.fpoff) != node.footprint {
        SetTimer(ev, false);
        RunOfOne(start, NotOwner(ev));
        return [NotOwner(ev)];
      }
      var n := Unmap(ev);
      Flag(ev, false);
      RunOfOne(start, Called(ev));
      var inner := Run(during);
      RunsCompose(start, [Called(ev)], inner);
      SameEvents();
      RunOfOne(State(), Returned);
      RunsCompose(start, [Called(ev)] + inner, [Returned]);
      PutNode(n);
      return [Called(ev)] + inner + [Returned];
    }

    method Perform(action: Action) returns (log: seq<Event>)
      requires Valid()
      modifies this
      ensures Valid() && taken == old(taken)
      ensures log == LogOf(old(State()), action)
      ensures LegalRun(old(State()), log) && State() == AfterAll(old(State()), log)
      decreases action, 0
    {
      hide Valid, State, LegalRun, AfterAll;
      ghost var start := State();
      match action
      case Add(ev, fpoff) =>
        var e := AddTimer(ev, fpoff);
        RunOfOne(start, e);
        log := [e];
      case Del(ev, fp) =>
        var e := DelTimer(ev, fp);
        RunOfOne(start, e);
        log := [e];
      case Expire(ev, during) =>
        log := Wrap(ev, during);
      case Stamp(ev, off, fp) =>
        SetFootprint(ev, off, fp);
        RunOfOne(start, Stamped(ev, off, fp));
        log := [Stamped(ev, off, fp)];
    }

    /** A user writes a footprint. */
    method SetFootprint(ev: nat, off: int, fp: nat)
      requires Valid()
      modifies this`memory
      ensures Valid() && State() == After(old(State()), Stamped(ev, off, fp))
    {
      hide Threaded, Mapping, Mapped, Records, Partition;
      memory := Write(memory, ev, off, fp);
    }

    /** Any run: the registry accepts all that happened, and is where the pool, the map and the flags are. */
    method Run(script: seq<Action>) returns (log: seq<Event>)
      requires Valid()
      modifies this
      ensures Valid() && taken == old(taken)
      ensures log == LogOfAll(old(State()), script)
      ensures LegalRun(old(State()), log) && State() == AfterAll(old(State()), log)
      decreases script, 0
    {
      hide Valid, State, LegalRun, AfterAll, LogOf;
      ghost var start := State();
      log := [];
      RunOfNone(start);
      assert LogOfAll(start, []) == [];
      for i := 0 to |script|
        invariant Valid() && taken == old(taken)
        invariant log == LogOfAll(start, script[..i])
        invariant LegalRun(start, log) && State() == AfterAll(start, log)
      {
        var more := Perform(script[i]);
        RunsCompose(start, log, more);
        LogOfOne(AfterAll(start, log), script[i]);
        LogOfMore(start, script[..i], [script[i]]);
        assert script[..i + 1] == script[..i] + [script[i]];
        log := log + more;
      }
      assert script[..|script|] == script;
    }
  }
}
