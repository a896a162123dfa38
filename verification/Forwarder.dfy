/**
 * The life of port forwards: starting, stopping one, stopping all, closing, and workers that fail on their own.
 * Map changes are critical sections; cancelling a forward and calling back happen later, outside the lock.
 */
module Forwarder {
  import opened Bytes

  type Id = bytes
  type Gen = nat
  type Actor = nat

  datatype Direction = Local | Remote | Dynamic | Other

  datatype Pc =
    | Undoing(gen: Gen)                          // StartForward found an unknown direction after inserting this
    | Removing(gen: Gen)                         // the worker of this forward has failed and is about to remove it
    | Owes(todo: map<Id, Gen>, cancels: bool)    // taken out of the map, callbacks still to come

  /**
   * `inserted` lists the id of every forward ever put in the map, by generation; `starts`, `strays`, `undone` and
   * `callbacks` log the successful starts, the inserts with an unknown direction, what an undo has deleted, and the
   * OnForwardStopped calls.
   */
  datatype State = State(
    forwards: map<Id, Gen>,
    closed: bool,
    inserted: seq<Id>,
    starts: seq<Id>,
    strays: seq<Id>,
    undone: seq<Id>,
    callbacks: seq<Id>,
    cancelled: set<Gen>,
    actors: map<Actor, Pc>)

  const INIT := State(map[], false, [], [], [], [], [], {}, map[])

  datatype Action =
    | Start(who: Actor, id: Id, direction: Direction, bindPort: nat)
    | Undo(who: Actor)
    | Stop(who: Actor, id: Id)
    | StopAll(who: Actor)
    | Close(who: Actor)
    | WorkerFails(who: Actor, gen: Gen)
    | Remove(who: Actor)
    | Cancel(who: Actor, id: Id)
    | Notify(who: Actor, id: Id)

  ghost predicate Enabled(s: State, a: Action) {
    match a
    case Start(t, _, _, _) => t !in s.actors
    case Stop(t, _) => t !in s.actors
    case StopAll(t) => t !in s.actors
    case Close(t) => t !in s.actors
    case WorkerFails(t, g) => t !in s.actors && g < |s.inserted| && g !in s.cancelled
    case Undo(t) => t in s.actors && s.actors[t].Undoing? && s.actors[t].gen < |s.inserted|
    case Remove(t) => t in s.actors && s.actors[t].Removing? && s.actors[t].gen < |s.inserted|
    case Cancel(t, id) => t in s.actors && s.actors[t].Owes? && s.actors[t].cancels && id in s.actors[t].todo
    case Notify(t, id) =>
      && t in s.actors && s.actors[t].Owes? && id in s.actors[t].todo
      && (s.actors[t].cancels ==> s.actors[t].todo[id] in s.cancelled)
  }

  /** Configurations turned down before the lock is taken. */
  predicate Refused(id: Id, direction: Direction, bindPort: nat) {
    id == [] || (direction == Remote && bindPort == 0)
  }

  /** Takes ids out of the map; the actor owes a callback for each one that was there. */
  ghost function TakeOut(s: State, t: Actor, ids: set<Id>, cancels: bool): State {
    s.(forwards := s.forwards - ids,
       actors := s.actors[t := Owes(map i | i in ids && i in s.forwards :: s.forwards[i], cancels)])
  }

  ghost function Do(s: State, a: Action): State
    requires Enabled(s, a)
  {
    var t := a.who;
    match a
    case Start(_, id, direction, bindPort) =>
      if Refused(id, direction, bindPort) || s.closed || id in s.forwards then s
      else
        var s1 := s.(forwards := s.forwards[id := |s.inserted|], inserted := s.inserted + [id]);
        if direction == Other then s1.(strays := s.strays + [id], actors := s.actors[t := Undoing(|s.inserted|)])
        else s1.(starts := s.starts + [id])
    case Undo(_) =>
      var id := s.inserted[s.actors[t].gen];
      s.(forwards := s.forwards - {id},
         undone := if id in s.forwards then s.undone + [id] else s.undone,
         actors := s.actors - {t})
    case Stop(_, id) => TakeOut(s, t, {id}, true)
    case StopAll(_) => TakeOut(s, t, s.forwards.Keys, true)
    case Close(_) => if s.closed then s else TakeOut(s, t, s.forwards.Keys, true).(closed := true)
    case WorkerFails(_, g) => s.(actors := s.actors[t := Removing(g)])
    case Remove(_) => TakeOut(s, t, {s.inserted[s.actors[t].gen]}, false)
    case Cancel(_, id) => s.(cancelled := s.cancelled + {s.actors[t].todo[id]})
    case Notify(_, id) =>
      s.(callbacks := s.callbacks + [id],
         actors := s.actors[t := Owes(s.actors[t].todo - {id}, s.actors[t].cancels)])
  }

  // ---------------------------------------------------------------- the critical sections

  /**
   * What the mutex guards, with the machine's state as history: every method is one critical section and one action.
   */
  class PortForwarder {
    var forwards: map<Id, Gen>
    var closed: bool
    ghost var state: State

    ghost predicate Valid()
      reads this
    {
      forwards == state.forwards && closed == state.closed
    }

    constructor ()
      ensures Valid() && state == INIT
    {
      forwards := map[];
      closed := false;
      state := INIT;
    }

    /** The tests of StartForward and the section that inserts; `forward` is the new active forward. */
    method Insert(ghost who: Actor, id: Id, direction: Direction, bindPort: nat, forward: Gen) returns (inserted: bool)
      requires Valid() && who !in state.actors && forward == |state.inserted|
      modifies this
      ensures Valid() && state == Do(old(state), Start(who, id, direction, bindPort))
      ensures inserted <==> state.inserted == old(state.inserted) + [id]
    {
      state := Do(state, Start(who, id, direction, bindPort));
      if id == [] {
        return false;
      }
      if direction == Remote && bindPort == 0 {
        return false;
      }
      if closed {
        return false;
      }
      if id in forwards {
        return false;
      }
      forwards := forwards[id := forward];
      inserted := true;
    }

    /** StartForward again, for an unknown direction. */
    method TakeBack(ghost who: Actor, id: Id)
      requires Valid() && Enabled(state, Undo(who)) && state.inserted[state.actors[who].gen] == id
      modifies this
      ensures Valid() && state == Do(old(state), Undo(who))
    {
      state := Do(state, Undo(who));
      forwards := forwards - {id};
    }

    /** The section of StopForward: the forward to stop and call back for, if there is one. */
    method TakeOne(ghost who: Actor, id: Id) returns (forward: map<Id, Gen>)
      requires Valid() && who !in state.actors
      modifies this
      ensures Valid() && state == Do(old(state), Stop(who, id))
      ensures state.actors[who] == Owes(forward, true)
    {
      state := Do(state, Stop(who, id));
      forward := map[];
      if id in forwards {
        forward := map[id := forwards[id]];
        forwards := forwards - {id};
      }
    }

    method Copied() returns (all: map<Id, Gen>)
      ensures all == forwards
    {
      all := map[];
      var rest := forwards.Keys;
      while rest != {}
        invariant rest <= forwards.Keys
        invariant all == map id | id in forwards && id !in rest :: forwards[id]
        decreases |rest|
      {
        var id :| id in rest;
        all := all[id := forwards[id]];
        rest := rest - {id};
      }
    }

    /** The section of StopAll. */
    method TakeAll(ghost who: Actor) returns (all: map<Id, Gen>)
      requires Valid() && who !in state.actors
      modifies this
      ensures Valid() && state == Do(old(state), StopAll(who))
      ensures state.actors[who] == Owes(all, true)
    {
      state := Do(state, StopAll(who));
      all := Copied();
      forwards := map[];
    }

    /** The section of Close: only the first Close has forwards to stop. */
    method CloseAll(ghost who: Actor) returns (all: map<Id, Gen>)
      requires Valid() && who !in state.actors
      modifies this
      ensures Valid() && closed && state == Do(old(state), Close(who))
      ensures if old(closed) then all == map[] && who !in state.actors else state.actors[who] == Owes(all, true)
    {
      state := Do(state, Close(who));
      if closed {
        return map[];
      }
      closed := true;
      all := Copied();
      forwards := map[];
    }

    /** The section of removeForwardAndNotify. */
    method RemoveForward(ghost who: Actor, id: Id) returns (existed: bool)
      requires Valid() && Enabled(state, Remove(who)) && state.inserted[state.actors[who].gen] == id
      modifies this
      ensures Valid() && state == Do(old(state), Remove(who))
      ensures existed <==> id in state.actors[who].todo
    {
      state := Do(state, Remove(who));
      existed := id in forwards;
      forwards := forwards - {id};
    }
  }

  // ---------------------------------------------------------------- conservation

  ghost function Owing(s: State, id: Id): set<Actor> {
    set t | t in s.actors && s.actors[t].Owes? && id in s.actors[t].todo
  }

  ghost function InMap(s: State, id: Id): nat {
    if id in s.forwards then 1 else 0
  }

  /** Every insert of an id is accounted for: called back, owed, deleted by an undo, or still in the map. */
  ghost predicate Balanced(s: State, id: Id) {
    multiset(s.inserted)[id] == multiset(s.callbacks)[id] + |Owing(s, id)| + multiset(s.undone)[id] + InMap(s, id)
  }

  lemma {:induction false} Appended(xs: seq<Id>, x: Id, id: Id)
    ensures multiset(xs + [x])[id] == multiset(xs)[id] + if x == id then 1 else 0
  {}

  lemma {:induction false} TakeOutBalances(s: State, t: Actor, ids: set<Id>, cancels: bool, id: Id)
    requires Balanced(s, id) && (t in s.actors ==> !s.actors[t].Owes?)
    ensures Balanced(TakeOut(s, t, ids, cancels), id)
  {
    OwingTaken(s, t, ids, cancels, id);
  }

  lemma {:induction false} OwingTaken(s: State, t: Actor, ids: set<Id>, cancels: bool, id: Id)
    requires t in s.actors ==> !s.actors[t].Owes?
    ensures t !in Owing(s, id)
    ensures Owing(TakeOut(s, t, ids, cancels), id)
         == if id in ids && id in s.forwards then Owing(s, id) + {t} else Owing(s, id)
  {
    var s' := TakeOut(s, t, ids, cancels);
    forall u ensures u in Owing(s', id) <==> u in Owing(s, id) || (u == t && id in ids && id in s.forwards) {
      if u == t {
        assert id in s'.actors[t].todo <==> id in ids && id in s.forwards;
      } else {
        assert u in s'.actors <==> u in s.actors;
      }
    }
  }

  lemma {:induction false} NotifyBalances(s: State, a: Action, id: Id)
    requires Balanced(s, id) && a.Notify? && Enabled(s, a)
    ensures Balanced(Do(s, a), id)
  {
    Appended(s.callbacks, a.id, id);
    OwingNotified(s, a, id);
  }

  lemma {:induction false} OwingNotified(s: State, a: Action, id: Id)
    requires a.Notify? && Enabled(s, a)
    ensures a.who in Owing(s, a.id)
    ensures Owing(Do(s, a), id) == if id == a.id then Owing(s, id) - {a.who} else Owing(s, id)
  {
    var s' := Do(s, a);
    forall u ensures u in Owing(s', id) <==> u in Owing(s, id) && !(u == a.who && id == a.id) {
      assert u != a.who ==> (u in s'.actors <==> u in s.actors);
    }
  }

  lemma {:induction false} StartBalances(s: State, a: Action, id: Id)
    requires Balanced(s, id) && a.Start? && Enabled(s, a)
    ensures Balanced(Do(s, a), id)
  {
    Appended(s.inserted, a.id, id);
    OwingStarted(s, a, id);
  }

  lemma {:induction false} OwingStarted(s: State, a: Action, id: Id)
    requires a.Start? && Enabled(s, a)
    ensures Owing(Do(s, a), id) == Owing(s, id)
  {
    var s' := Do(s, a);
    forall u ensures u in Owing(s', id) <==> u in Owing(s, id) {
      assert u != a.who ==> (u in s'.actors <==> u in s.actors);
    }
  }

  lemma {:induction false} UndoBalances(s: State, a: Action, id: Id)
    requires Balanced(s, id) && a.Undo? && Enabled(s, a)
    ensures Balanced(Do(s, a), id)
  {
    Appended(s.undone, s.inserted[s.actors[a.who].gen], id);
    assert Owing(Do(s, a), id) == Owing(s, id);
  }

  lemma {:induction false} BalanceKept(s: State, a: Action, id: Id)
    requires Balanced(s, id) && Enabled(s, a)
    ensures Balanced(Do(s, a), id)
  {
    var s' := Do(s, a);
    match a {
      case Start(_, _, _, _) => StartBalances(s, a, id);
      case Undo(_) => UndoBalances(s, a, id);
      case Stop(t, x) => TakeOutBalances(s, t, {x}, true, id);
      case StopAll(t) => TakeOutBalances(s, t, s.forwards.Keys, true, id);
      case Close(t) =>
        TakeOutBalances(s, t, s.forwards.Keys, true, id);
        if !s.closed {
          assert Owing(s', id) == Owing(TakeOut(s, t, s.forwards.Keys, true), id);
        }
      case WorkerFails(_, _) => assert Owing(s', id) == Owing(s, id);
      case Remove(t) => TakeOutBalances(s, t, {s.inserted[s.actors[t].gen]}, false, id);
      case Cancel(_, _) => assert Owing(s', id) == Owing(s, id);
      case Notify(_, _) => NotifyBalances(s, a, id);
    }
  }

  // ---------------------------------------------------------------- runs

  ghost predicate IsRun(s: State, run: seq<Action>)
    decreases |run|
  {
    run == [] || (Enabled(s, run[0]) && IsRun(Do(s, run[0]), run[1..]))
  }

  ghost function After(s: State, run: seq<Action>): State
    requires IsRun(s, run)
    decreases |run|
  {
    if run == [] then s else After(Do(s, run[0]), run[1..])
  }

  lemma {:induction false} RunBalances(s: State, run: seq<Action>, id: Id)
    requires IsRun(s, run) && Balanced(s, id)
    ensures Balanced(After(s, run), id)
    decreases |run|
  {
    if run != [] {
      BalanceKept(s, run[0], id);
      RunBalances(Do(s, run[0]), run[1..], id);
    }
  }

  /**
   * In every reachable state the inserts of an id equal its OnForwardStopped calls, plus the callbacks still owed,
   * plus those that an undo has deleted, plus one if it is running.
   */
  lemma {:induction false} Conservation(run: seq<Action>, id: Id)
    requires IsRun(INIT, run)
    ensures Balanced(After(INIT, run), id)
  {
    assert Owing(INIT, id) == {};
    RunBalances(INIT, run, id);
  }

  // ---------------------------------------------------------------- successful starts

  /** Every insert is a successful start or one with an unknown direction. */
  ghost predicate Told(s: State, id: Id) {
    multiset(s.inserted)[id] == multiset(s.starts)[id] + multiset(s.strays)[id]
  }

  lemma {:induction false} ToldKept(s: State, a: Action, id: Id)
    requires Told(s, id) && Enabled(s, a)
    ensures Told(Do(s, a), id)
  {
    if a.Start? {
      Appended(s.inserted, a.id, id);
      Appended(s.starts, a.id, id);
      Appended(s.strays, a.id, id);
    }
  }

  lemma {:induction false} RunTold(s: State, run: seq<Action>, id: Id)
    requires IsRun(s, run) && Told(s, id)
    ensures Told(After(s, run), id)
    decreases |run|
  {
    if run != [] {
      ToldKept(s, run[0], id);
      RunTold(Do(s, run[0]), run[1..], id);
    }
  }

  /** Each successful start of an id has been called back, is owed its callback, or is running. */
  ghost predicate StartsAccounted(s: State, id: Id) {
    multiset(s.starts)[id] == multiset(s.callbacks)[id] + |Owing(s, id)| + InMap(s, id)
  }

  /**
   * In every reachable state this law holds for an id exactly when an undo has deleted it as often as it was inserted
   * with an unknown direction, whichever inserts those deletions hit.
   */
  lemma {:induction false} StartsAccountedIff(run: seq<Action>, id: Id)
    requires IsRun(INIT, run)
    ensures var s := After(INIT, run); StartsAccounted(s, id) <==> multiset(s.strays)[id] == multiset(s.undone)[id]
  {
    Conservation(run, id);
    RunTold(INIT, run, id);
  }

  ghost predicate Supported(run: seq<Action>) {
    forall i :: 0 <= i < |run| && run[i].Start? ==> run[i].direction != Other
  }

  ghost predicate NoStrays(s: State) {
    s.strays == [] && s.undone == [] && forall t :: t in s.actors ==> !s.actors[t].Undoing?
  }

  lemma {:induction false} RunNoStrays(s: State, run: seq<Action>)
    requires IsRun(s, run) && NoStrays(s) && Supported(run)
    ensures NoStrays(After(s, run))
    decreases |run|
  {
    if run != [] {
      assert NoStrays(Do(s, run[0]));
      RunNoStrays(Do(s, run[0]), run[1..]);
    }
  }

  /** With the three supported directions it always holds. */
  lemma {:induction false} StartsAreStopped(run: seq<Action>, id: Id)
    requires IsRun(INIT, run) && Supported(run)
    ensures StartsAccounted(After(INIT, run), id)
  {
    RunNoStrays(INIT, run);
    StartsAccountedIff(run, id);
  }

  // ---------------------------------------------------------------- whose forward a worker or an undo removes

  /** A running forward is the last one inserted under its id, and what a worker or an undo is about was inserted. */
  ghost predicate Placed(s: State) {
    && (forall id :: id in s.forwards ==> s.forwards[id] < |s.inserted| && LastAt(s.inserted, id, s.forwards[id]))
    && (forall t :: t in s.actors && !s.actors[t].Owes? ==> s.actors[t].gen < |s.inserted|)
  }

  ghost predicate LastAt(ids: seq<Id>, id: Id, g: Gen)
    requires g < |ids|
  {
    ids[g] == id && forall j :: g < j < |ids| ==> ids[j] != id
  }

  lemma {:induction false} PlacedKept(s: State, a: Action)
    requires Placed(s) && Enabled(s, a)
    ensures Placed(Do(s, a))
  {
    var s' := Do(s, a);
    forall id | id in s'.forwards ensures s'.forwards[id] < |s'.inserted| && LastAt(s'.inserted, id, s'.forwards[id]) {
      assert id in s.forwards ==> LastAt(s.inserted, id, s.forwards[id]);
    }
  }

  lemma {:induction false} RunPlaced(s: State, run: seq<Action>)
    requires IsRun(s, run) && Placed(s)
    ensures Placed(After(s, run))
    decreases |run|
  {
    if run != [] {
      PlacedKept(s, run[0]);
      RunPlaced(Do(s, run[0]), run[1..]);
    }
  }

  /** The forward of generation `g` has been started again under its id. */
  ghost predicate Restarted(s: State, g: Gen)
    requires g < |s.inserted|
  {
    exists j :: g < j < |s.inserted| && s.inserted[j] == s.inserted[g]
  }

  /**
   * In every reachable state a failed worker can go on; what it removes, if its id is running at all, is its own
   * forward exactly when that has not been started again since.
   */
  lemma {:induction false} RemovesItsOwnIff(run: seq<Action>, t: Actor)
    requires IsRun(INIT, run) && t in After(INIT, run).actors && After(INIT, run).actors[t].Removing?
    ensures Enabled(After(INIT, run), Remove(t))
    ensures var s := After(INIT, run);
            var g := s.actors[t].gen;
            s.inserted[g] in s.forwards ==>
              (Do(s, Remove(t)).actors[t] == Owes(map[s.inserted[g] := g], false) <==> !Restarted(s, g))
    ensures var s := After(INIT, run);
            var g := s.actors[t].gen;
            s.inserted[g] !in s.forwards ==> Do(s, Remove(t)).actors[t] == Owes(map[], false)
  {
    RunPlaced(INIT, run);
    var s := After(INIT, run);
    var g := s.actors[t].gen;
    var id := s.inserted[g];
    var todo := Do(s, Remove(t)).actors[t].todo;
    if id in s.forwards {
      assert todo == map[id := s.forwards[id]];
      assert map[id := s.forwards[id]][id] == s.forwards[id];
      LastIsOwn(s, g);
    } else {
      assert todo == map[];
    }
  }

  /**
   * So can an undo. It deletes by id and, if that is running at all, deletes its own insert exactly when the id has
   * not been started again since.
   */
  lemma {:induction false} UndoesItsOwnIff(run: seq<Action>, t: Actor)
    requires IsRun(INIT, run) && t in After(INIT, run).actors && After(INIT, run).actors[t].Undoing?
    ensures Enabled(After(INIT, run), Undo(t))
    ensures var s := After(INIT, run);
            var g := s.actors[t].gen;
            && Do(s, Undo(t)).forwards == s.forwards - {s.inserted[g]}
            && (s.inserted[g] in s.forwards ==> (s.forwards[s.inserted[g]] == g <==> !Restarted(s, g)))
  {
    RunPlaced(INIT, run);
    var s := After(INIT, run);
    if s.inserted[s.actors[t].gen] in s.forwards {
      LastIsOwn(s, s.actors[t].gen);
    }
  }

  lemma {:induction false} LastIsOwn(s: State, g: Gen)
    requires Placed(s) && g < |s.inserted| && s.inserted[g] in s.forwards
    ensures s.forwards[s.inserted[g]] == g <==> !Restarted(s, g)
  {
    var id := s.inserted[g];
    var last := s.forwards[id];
    assert LastAt(s.inserted, id, last);
    if last != g {
      assert g < last;
    }
  }

  // ---------------------------------------------------------------- what starting does

  /** A forward is put in the map exactly with an id that is free, a port if it is remote, and before Close. */
  lemma {:induction false} StartsIff(s: State, t: Actor, id: Id, direction: Direction, bindPort: nat)
    requires Enabled(s, Start(t, id, direction, bindPort))
    ensures var s' := Do(s, Start(t, id, direction, bindPort));
            if id != [] && (direction == Remote ==> bindPort > 0) && !s.closed && id !in s.forwards
            then && s'.forwards == s.forwards[id := |s.inserted|] && s'.inserted == s.inserted + [id]
                 && (direction != Other ==> s'.starts == s.starts + [id] && s'.actors == s.actors)
                 && (direction == Other ==> s'.starts == s.starts && s'.actors == s.actors[t := Undoing(|s.inserted|)])
            else s' == s
  {}

  // ---------------------------------------------------------------- what stopping does

  /** The actor that took these forwards still has each of them to do, or has cancelled it and called back for it. */
  ghost predicate Settling(s: State, t: Actor, taken: map<Id, Gen>, called: seq<Id>) {
    && t in s.actors && s.actors[t].Owes? && s.actors[t].cancels
    && forall id :: id in taken ==> SettlesOne(s, t, id, taken[id], multiset(called)[id])
  }

  ghost predicate SettlesOne(s: State, t: Actor, id: Id, g: Gen, calls: nat)
    requires t in s.actors && s.actors[t].Owes?
  {
    || (id in s.actors[t].todo && s.actors[t].todo[id] == g)
    || (g in s.cancelled && multiset(s.callbacks)[id] > calls)
  }

  lemma {:induction false} MoreCalls(s: State, a: Action, id: Id)
    requires Enabled(s, a)
    ensures multiset(Do(s, a).callbacks)[id] >= multiset(s.callbacks)[id] && s.cancelled <= Do(s, a).cancelled
    ensures a.Notify? && a.id == id ==> multiset(Do(s, a).callbacks)[id] > multiset(s.callbacks)[id]
  {
    if a.Notify? {
      Appended(s.callbacks, a.id, id);
    }
  }

  lemma {:induction false} StepSettles(s: State, a: Action, t: Actor, taken: map<Id, Gen>, called: seq<Id>)
    requires Enabled(s, a) && Settling(s, t, taken, called)
    requires forall id :: multiset(s.callbacks)[id] >= multiset(called)[id]
    ensures Settling(Do(s, a), t, taken, called)
    ensures forall id :: multiset(Do(s, a).callbacks)[id] >= multiset(called)[id]
  {
    forall id ensures multiset(Do(s, a).callbacks)[id] >= multiset(called)[id] {
      MoreCalls(s, a, id);
    }
    StaysOwing(s, a, t);
    forall id | id in taken ensures SettlesOne(Do(s, a), t, id, taken[id], multiset(called)[id]) {
      MoreCalls(s, a, id);
      assert SettlesOne(s, t, id, taken[id], multiset(called)[id]);
    }
  }

  /** An actor that cancels what it took goes on owing, until its last callback and after; only its own steps pay. */
  lemma {:induction false} StaysOwing(s: State, a: Action, t: Actor)
    requires Enabled(s, a) && t in s.actors && s.actors[t].Owes? && s.actors[t].cancels
    ensures t in Do(s, a).actors && Do(s, a).actors[t].Owes? && Do(s, a).actors[t].cancels
    ensures var todo := s.actors[t].todo;
            Do(s, a).actors[t].todo == if a.Notify? && a.who == t then todo - {a.id} else todo
    ensures a.Notify? && a.who == t ==> a.id in s.actors[t].todo && s.actors[t].todo[a.id] in s.cancelled
  {}

  lemma {:induction false} RunSettles(s: State, run: seq<Action>, t: Actor, taken: map<Id, Gen>, called: seq<Id>)
    requires IsRun(s, run) && Settling(s, t, taken, called)
    requires forall id :: multiset(s.callbacks)[id] >= multiset(called)[id]
    ensures Settling(After(s, run), t, taken, called)
    decreases |run|
  {
    if run != [] {
      StepSettles(s, run[0], t, taken, called);
      RunSettles(Do(s, run[0]), run[1..], t, taken, called);
    }
  }

  /** StopForward takes out that forward and no other; StopAll, and the first Close, take out all of them. */
  lemma {:induction false} StopTakes(s: State, a: Action)
    requires Enabled(s, a) && (a.Stop? || a.StopAll? || (a.Close? && !s.closed))
    ensures var s' := Do(s, a);
            && (a.StopAll? || a.Close? ==> s'.forwards == map[] && s'.actors[a.who] == Owes(s.forwards, true))
            && (a.Close? ==> s'.closed)
            && (a.Stop? ==> a.id !in s'.forwards && s'.actors[a.who].todo.Keys == {a.id} * s.forwards.Keys)
            && (a.Stop? ==> forall id :: id != a.id ==> (id in s'.forwards <==> id in s.forwards))
            && (forall id :: id in s'.forwards ==> id in s.forwards && s'.forwards[id] == s.forwards[id])
  {
    if !a.Stop? {
      var s' := Do(s, a);
      assert s'.forwards == map[];
      assert s'.actors[a.who].todo == s.forwards;
    }
  }

  /**
   * Once an actor that stopped forwards is through, in whatever interleaving, each forward that it took out has been
   * cancelled and called back for.
   */
  lemma {:induction false} StoppedForGood(run: seq<Action>, a: Action, later: seq<Action>, id: Id)
    requires IsRun(INIT, run) && Enabled(After(INIT, run), a)
    requires var s := After(INIT, run);
             && (a.StopAll? || (a.Close? && !s.closed) || (a.Stop? && a.id == id))
             && id in s.forwards && IsRun(Do(s, a), later)
    requires var s2 := After(Do(After(INIT, run), a), later);
             a.who in s2.actors && s2.actors[a.who].Owes? && id !in s2.actors[a.who].todo
    ensures var s := After(INIT, run);
            var s2 := After(Do(s, a), later);
            s.forwards[id] in s2.cancelled && multiset(s2.callbacks)[id] > multiset(s.callbacks)[id]
  {
    var s := After(INIT, run);
    var taken := map[id := s.forwards[id]];
    assert Settling(Do(s, a), a.who, taken, s.callbacks);
    RunSettles(Do(s, a), later, a.who, taken, s.callbacks);
    assert id in taken;
  }

  // ---------------------------------------------------------------- after Close

  lemma {:induction false} ClosedStaysEmpty(s: State, run: seq<Action>)
    requires IsRun(s, run) && s.closed && s.forwards == map[]
    ensures After(s, run).closed && After(s, run).forwards == map[]
    decreases |run|
  {
    if run != [] {
      assert Do(s, run[0]).closed && Do(s, run[0]).forwards == map[];
      ClosedStaysEmpty(Do(s, run[0]), run[1..]);
    }
  }

  lemma {:induction false} ClosedIsEmpty(s: State, run: seq<Action>)
    requires IsRun(s, run) && (s.closed ==> s.forwards == map[])
    ensures After(s, run).closed ==> After(s, run).forwards == map[]
    decreases |run|
  {
    if run != [] {
      assert Do(s, run[0]).closed ==> Do(s, run[0]).forwards == map[];
      ClosedIsEmpty(Do(s, run[0]), run[1..]);
    }
  }

  /** Once closed, the map is empty and stays empty whatever happens next. */
  lemma {:induction false} ClosedForever(run: seq<Action>, more: seq<Action>)
    requires IsRun(INIT, run) && After(INIT, run).closed && IsRun(After(INIT, run), more)
    ensures After(After(INIT, run), more).closed && After(After(INIT, run), more).forwards == map[]
  {
    ClosedIsEmpty(INIT, run);
    ClosedStaysEmpty(After(INIT, run), more);
  }

  lemma {:induction false} RunCons(s: State, a: Action, run: seq<Action>)
    requires Enabled(s, a) && IsRun(Do(s, a), run)
    ensures IsRun(s, [a] + run) && After(s, [a] + run) == After(Do(s, a), run)
  {
    assert ([a] + run)[1..] == run;
  }

  /**
   * An unknown direction breaks the law for successful starts: a stop between insert and undo calls back for nothing.
   */
  lemma {:induction false} UnknownDirectionCallsBack(id: Id)
    requires id != []
    ensures var run := [Start(0, id, Other, 0)] + ([Stop(1, id)] + ([Cancel(1, id)] + ([Notify(1, id)] + [])));
            IsRun(INIT, run) && After(INIT, run).starts == [] && After(INIT, run).callbacks == [id]
  {
    var s1 := Do(INIT, Start(0, id, Other, 0));
    var s2 := Do(s1, Stop(1, id));
    assert s2.actors[1].todo == map[id := 0];
    var s3 := Do(s2, Cancel(1, id));
    RunCons(s3, Notify(1, id), []);
    RunCons(s2, Cancel(1, id), [Notify(1, id)] + []);
    RunCons(s1, Stop(1, id), [Cancel(1, id)] + ([Notify(1, id)] + []));
    RunCons(INIT, Start(0, id, Other, 0), [Stop(1, id)] + ([Cancel(1, id)] + ([Notify(1, id)] + [])));
  }

  ghost function FirstFails(id: Id): State {
    State(map[id := 0], false, [id], [id], [], [], [], {}, map[1 := Removing(0)])
  }

  ghost function FirstStopped(id: Id): State {
    State(map[], false, [id], [id], [], [], [], {}, map[1 := Removing(0), 2 := Owes(map[id := 0], true)])
  }

  lemma {:induction false} UntilFirstFails(id: Id)
    requires id != []
    ensures var s1 := Do(INIT, Start(0, id, Local, 0));
            Enabled(s1, WorkerFails(1, 0)) && Do(s1, WorkerFails(1, 0)) == FirstFails(id)
  {
    assert Do(INIT, Start(0, id, Local, 0)) == State(map[id := 0], false, [id], [id], [], [], [], {}, map[]);
  }

  lemma {:induction false} UntilFirstStopped(id: Id)
    ensures Do(FirstFails(id), Stop(2, id)) == FirstStopped(id)
  {
    var s3 := Do(FirstFails(id), Stop(2, id));
    assert s3.forwards == map[];
    assert s3.actors[2].todo == map[id := 0];
    assert s3.actors == FirstStopped(id).actors;
  }

  lemma {:induction false} SecondRemoved(id: Id)
    requires id != []
    ensures var s4 := Do(FirstStopped(id), Start(3, id, Local, 0));
            && Enabled(s4, Remove(1)) && Do(s4, Remove(1)).inserted == [id, id] && Do(s4, Remove(1)).forwards == map[]
            && Do(s4, Remove(1)).actors[1] == Owes(map[id := 1], false)
  {
    var s4 := Do(FirstStopped(id), Start(3, id, Local, 0));
    assert s4.forwards == map[id := 1];
  }

  ghost function StrayStopped(id: Id): State {
    State(map[], false, [id], [], [id], [], [], {}, map[0 := Undoing(0), 1 := Owes(map[id := 0], true)])
  }

  ghost function StrayInserted(id: Id): State {
    State(map[id := 0], false, [id], [], [id], [], [], {}, map[0 := Undoing(0)])
  }

  lemma {:induction false} UntilStrayStopped(id: Id)
    requires id != []
    ensures Do(INIT, Start(0, id, Other, 0)) == StrayInserted(id)
            && Do(StrayInserted(id), Stop(1, id)) == StrayStopped(id)
  {
    assert Do(INIT, Start(0, id, Other, 0)).forwards == map[id := 0];
    var s := Do(StrayInserted(id), Stop(1, id));
    assert s.forwards == map[] && s.actors[1].todo == map[id := 0];
    assert s.actors == StrayStopped(id).actors;
  }

  lemma {:induction false} SuccessorUndone(id: Id)
    requires id != []
    ensures var s := Do(StrayStopped(id), Start(2, id, Local, 0));
            && Enabled(s, Undo(0)) && Do(s, Undo(0)).forwards == map[] && Do(s, Undo(0)).starts == [id]
            && Do(s, Undo(0)).actors == map[1 := Owes(map[id := 0], true)] && Do(s, Undo(0)).callbacks == []
  {
    var s := Do(StrayStopped(id), Start(2, id, Local, 0));
    assert s.forwards == map[id := 1] && s.inserted == [id, id];
    assert Do(s, Undo(0)).actors == map[1 := Owes(map[id := 0], true)];
  }

  /**
   * An undo deletes by id as well: when its insert was stopped and the id started again, it deletes a forward that was
   * started for good, which nobody then owes a cancel or a callback.
   */
  lemma {:induction false} UndoDeletesSuccessor(id: Id)
    requires id != []
    ensures var run := [Start(0, id, Other, 0)] + ([Stop(1, id)] + ([Start(2, id, Local, 0)] + ([Undo(0)] + [])));
            && IsRun(INIT, run)
            && After(INIT, run).starts == [id] && After(INIT, run).callbacks == [] && After(INIT, run).forwards == map[]
            && After(INIT, run).actors == map[1 := Owes(map[id := 0], true)]
  {
    var s := Do(StrayStopped(id), Start(2, id, Local, 0));
    UntilStrayStopped(id);
    SuccessorUndone(id);
    RunCons(s, Undo(0), []);
    RunCons(StrayStopped(id), Start(2, id, Local, 0), [Undo(0)] + []);
    RunCons(StrayInserted(id), Stop(1, id), [Start(2, id, Local, 0)] + ([Undo(0)] + []));
    RunCons(INIT, Start(0, id, Other, 0), [Stop(1, id)] + ([Start(2, id, Local, 0)] + ([Undo(0)] + [])));
  }

  /** A worker removes by id, not by identity: one that failed just before a restart removes its successor. */
  lemma {:induction false} StaleWorkerRemovesSuccessor(id: Id)
    requires id != []
    ensures var later := [Stop(2, id)] + ([Start(3, id, Local, 0)] + ([Remove(1)] + []));
            var run := [Start(0, id, Local, 0)] + ([WorkerFails(1, 0)] + later);
            && IsRun(INIT, run)
            && After(INIT, run).inserted == [id, id]
            && After(INIT, run).forwards == map[]
            && 1 in After(INIT, run).actors
            && After(INIT, run).actors[1] == Owes(map[id := 1], false)
  {
    var s1 := Do(INIT, Start(0, id, Local, 0));
    var s4 := Do(FirstStopped(id), Start(3, id, Local, 0));
    UntilFirstFails(id);
    UntilFirstStopped(id);
    SecondRemoved(id);
    RunCons(s4, Remove(1), []);
    RunCons(FirstStopped(id), Start(3, id, Local, 0), [Remove(1)] + []);
    RunCons(FirstFails(id), Stop(2, id), [Start(3, id, Local, 0)] + ([Remove(1)] + []));
    var later := [Stop(2, id)] + ([Start(3, id, Local, 0)] + ([Remove(1)] + []));
    RunCons(s1, WorkerFails(1, 0), later);
    RunCons(INIT, Start(0, id, Local, 0), [WorkerFails(1, 0)] + later);
  }
}
