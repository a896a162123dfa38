/**
 * The certificate minter: a bounded cache of leaf certificates with single-flight minting. Callers run
 * concurrently; every step below is one critical section of `certFor`, or one thing done outside the lock.
 */
module CertCache {
  import opened Bytes
  import opened Recency

  const LEAF_CACHE_SIZE := 64

  type Name = bytes
  type Cert = int
  type Caller = nat
  type CallId = nat

  datatype Result = Ok(cert: Cert) | Err

  // ---------------------------------------------------------------- every interleaving

  /** A call being minted, with the caller that leads it. */
  datatype Call = Call(name: Name, leader: Caller, outcome: Option<Result>, done: bool)

  datatype Pc =
    | Entering(name: Name)
    | Waiting(name: Name, call: CallId)
    | Minting(call: CallId)
    | Minted(call: CallId)
    | Closing(call: CallId)
    | Returned(name: Name, via: Option<CallId>, result: Result)

  /** `made` remembers which certificate was minted for which name; it is not part of the program. */
  datatype State = State(
    cache: seq<Entry<Name, Cert>>,
    inflight: map<Name, CallId>,
    calls: seq<Call>,
    callers: map<Caller, Pc>,
    made: set<(Name, Cert)>)

  const INIT := State([], map[], [], map[], {})

  datatype Action =
    | Arrive(who: Caller, name: Name)
    | Enter(who: Caller)
    | Mint(who: Caller, result: Result)
    | Publish(who: Caller)
    | Close(who: Caller)
    | Wake(who: Caller)

  ghost predicate Enabled(s: State, a: Action) {
    match a
    case Arrive(t, _) => t !in s.callers
    case Enter(t) => t in s.callers && s.callers[t].Entering?
    case Mint(t, _) => t in s.callers && s.callers[t].Minting? && s.callers[t].call < |s.calls|
    case Publish(t) =>
      && t in s.callers && s.callers[t].Minted?
      && s.callers[t].call < |s.calls| && s.calls[s.callers[t].call].outcome.Some?
    case Close(t) =>
      && t in s.callers && s.callers[t].Closing?
      && s.callers[t].call < |s.calls| && s.calls[s.callers[t].call].outcome.Some?
    case Wake(t) =>
      t in s.callers && s.callers[t].Waiting? && s.callers[t].call < |s.calls|
      && s.calls[s.callers[t].call].done && s.calls[s.callers[t].call].outcome.Some?
  }

  ghost function Do(s: State, a: Action): State
    requires Enabled(s, a)
  {
    var t := a.who;
    match a
    case Arrive(_, name) => s.(callers := s.callers[t := Entering(name)])
    case Enter(_) =>
      var name := s.callers[t].name;
      var found := AnswerIn(s.cache, name);
      if found.Some? then
        s.(cache := Apply(s.cache, Op.Lookup(name), LEAF_CACHE_SIZE),
           callers := s.callers[t := Returned(name, None, Ok(found.value))])
      else if name in s.inflight then
        s.(callers := s.callers[t := Waiting(name, s.inflight[name])])
      else
        var c := |s.calls|;
        s.(inflight := s.inflight[name := c],
           calls := s.calls + [Call(name, t, None, false)],
           callers := s.callers[t := Minting(c)])
    case Mint(_, result) =>
      var c := s.callers[t].call;
      s.(calls := s.calls[c := s.calls[c].(outcome := Some(result))],
         callers := s.callers[t := Minted(c)],
         made := if result.Ok? then s.made + {(s.calls[c].name, result.cert)} else s.made)
    case Publish(_) =>
      var c := s.callers[t].call;
      var name, result := s.calls[c].name, s.calls[c].outcome.value;
      s.(inflight := s.inflight - {name},
         cache := if result.Ok? then Apply(s.cache, Op.Put(name, result.cert), LEAF_CACHE_SIZE) else s.cache,
         callers := s.callers[t := Closing(c)])
    case Close(_) =>
      var c := s.callers[t].call;
      s.(calls := s.calls[c := s.calls[c].(done := true)],
         callers := s.callers[t := Returned(s.calls[c].name, Some(c), s.calls[c].outcome.value)])
    case Wake(_) =>
      var c := s.callers[t].call;
      s.(callers := s.callers[t := Returned(s.callers[t].name, Some(c), s.calls[c].outcome.value)])
  }

  ghost predicate Leads(pc: Pc, c: CallId) {
    (pc.Minting? || pc.Minted?) && pc.call == c
  }

  /** What a caller's position says about the shared state. */
  ghost predicate CallerInv(s: State, t: Caller, pc: Pc) {
    match pc
    case Entering(_) => true
    case Waiting(name, c) => c < |s.calls| && s.calls[c].name == name
    case Minting(c) => c < |s.calls| && s.calls[c].leader == t && s.calls[c].outcome == None && !s.calls[c].done
                       && s.calls[c].name in s.inflight && s.inflight[s.calls[c].name] == c
    case Minted(c) => c < |s.calls| && s.calls[c].leader == t && s.calls[c].outcome.Some? && !s.calls[c].done
                      && s.calls[c].name in s.inflight && s.inflight[s.calls[c].name] == c
    case Closing(c) => c < |s.calls| && s.calls[c].leader == t && s.calls[c].outcome.Some? && !s.calls[c].done
    case Returned(name, via, r) =>
      && (r.Ok? ==> (name, r.cert) in s.made)
      && (via.Some? ==>
            via.value < |s.calls| && s.calls[via.value].name == name && s.calls[via.value].outcome == Some(r))
  }

  /** A call that is not done has its leader still at work on it, and a finished one has a result. */
  ghost predicate CallInv(s: State, c: CallId)
    requires c < |s.calls|
  {
    var call := s.calls[c];
    && (call.outcome.Some? && call.outcome.value.Ok? ==> (call.name, call.outcome.value.cert) in s.made)
    && (call.done ==> call.outcome.Some?)
    && (call.done || call.leader in s.callers)
    && (call.done || Leads(s.callers[call.leader], c) || s.callers[call.leader] == Closing(c))
  }

  /**
   * The cache holds distinct names, at most the limit, none of them being minted, all certificates minted for that
   * name.
   */
  ghost predicate CacheInv(s: State) {
    && Distinct(s.cache) && |s.cache| <= LEAF_CACHE_SIZE
    && (forall i :: 0 <= i < |s.cache| ==>
        s.cache[i].key !in s.inflight && (s.cache[i].key, s.cache[i].value) in s.made)
  }

  ghost predicate InflightInv(s: State) {
    forall name :: name in s.inflight ==>
      && s.inflight[name] < |s.calls|
      && s.calls[s.inflight[name]].name == name
      && !s.calls[s.inflight[name]].done
      && s.calls[s.inflight[name]].leader in s.callers
      && Leads(s.callers[s.calls[s.inflight[name]].leader], s.inflight[name])
  }

  ghost predicate Inv(s: State) {
    && CacheInv(s)
    && InflightInv(s)
    && (forall t :: t in s.callers ==> CallerInv(s, t, s.callers[t]))
    && (forall c :: 0 <= c < |s.calls| ==> CallInv(s, c))
  }

  lemma {:induction false} UsedEntries(es: seq<Entry<Name, Cert>>, k: Name, v: Cert, i: nat)
    requires Distinct(es) && i < |Use(es, k, v)|
    ensures var u := Use(es, k, v);
            u[i] == Entry(k, v) || (exists j :: 0 <= j < |es| && u[i] == es[j])
  {
    if i > 0 {
      var n := IndexOf(es, k);
      assert Use(es, k, v)[i] == RemoveAt(es, n)[i - 1];
      assert RemoveAt(es, n)[i - 1] == es[if i - 1 < n then i - 1 else i];
    }
  }

  lemma {:induction false} UsedCache(s: State, s': State, name: Name, v: Cert)
    requires CacheInv(s) && (name, v) in s'.made && s.made <= s'.made
    requires name !in s'.inflight && s'.inflight.Keys <= s.inflight.Keys
    requires s'.cache == Take(Use(s.cache, name, v), LEAF_CACHE_SIZE)
    ensures CacheInv(s')
  {
    UseDistinct(s.cache, name, v);
    forall i | 0 <= i < |Use(s.cache, name, v)|
      ensures var e := Use(s.cache, name, v)[i]; e.key !in s'.inflight && (e.key, e.value) in s'.made
    {
      UsedEntries(s.cache, name, v, i);
    }
  }

  lemma {:induction false} ArriveKeeps(s: State, a: Action)
    requires Inv(s) && a.Arrive? && Enabled(s, a)
    ensures Inv(Do(s, a))
  {
    var s' := Do(s, a);
    forall x | x in s'.callers ensures CallerInv(s', x, s'.callers[x]) {
      assert x != a.who ==> CallerInv(s, x, s.callers[x]);
    }
    forall c | 0 <= c < |s'.calls| ensures CallInv(s', c) {
      assert CallInv(s, c);
    }
  }

  lemma {:induction false} HitKeeps(s: State, a: Action)
    requires Inv(s) && a.Enter? && Enabled(s, a) && AnswerIn(s.cache, s.callers[a.who].name).Some?
    ensures Inv(Do(s, a))
  {
    var s' := Do(s, a);
    var name := s.callers[a.who].name;
    var n := IndexOf(s.cache, name);
    assert s.cache[n].key !in s.inflight;
    assert |Use(s.cache, name, s.cache[n].value)| == |s.cache|;
    UsedCache(s, s', name, s.cache[n].value);
    forall x | x in s'.callers ensures CallerInv(s', x, s'.callers[x]) {
      assert CallerInv(s, x, s.callers[x]);
    }
    forall c | 0 <= c < |s'.calls| ensures CallInv(s', c) {
      assert CallInv(s, c);
    }
  }

  lemma {:induction false} MissKeepsCallers(s: State, a: Action)
    requires Inv(s) && a.Enter? && Enabled(s, a) && AnswerIn(s.cache, s.callers[a.who].name) == None
    ensures forall x :: x in Do(s, a).callers ==> CallerInv(Do(s, a), x, Do(s, a).callers[x])
  {
    var s' := Do(s, a);
    forall x | x in s'.callers ensures CallerInv(s', x, s'.callers[x]) {
      assert CallerInv(s, x, s.callers[x]);
    }
  }

  lemma {:induction false} MissKeeps(s: State, a: Action)
    requires Inv(s) && a.Enter? && Enabled(s, a) && AnswerIn(s.cache, s.callers[a.who].name) == None
    ensures Inv(Do(s, a))
  {
    var s' := Do(s, a);
    var name := s.callers[a.who].name;
    assert IndexOf(s.cache, name) == |s.cache|;
    MissKeepsCallers(s, a);
    forall c | 0 <= c < |s'.calls| ensures CallInv(s', c) {
      assert c < |s.calls| ==> CallInv(s, c);
    }
  }

  lemma {:induction false} MintKeeps(s: State, a: Action)
    requires Inv(s) && a.Mint? && Enabled(s, a)
    ensures Inv(Do(s, a))
  {
    var s' := Do(s, a);
    assert CallerInv(s, a.who, s.callers[a.who]);
    forall x | x in s'.callers ensures CallerInv(s', x, s'.callers[x]) {
      assert CallerInv(s, x, s.callers[x]);
    }
    forall c | 0 <= c < |s'.calls| ensures CallInv(s', c) {
      assert CallInv(s, c);
    }
  }

  lemma {:induction false} PublishKeeps(s: State, a: Action)
    requires Inv(s) && a.Publish? && Enabled(s, a)
    ensures Inv(Do(s, a))
  {
    var s' := Do(s, a);
    assert CallerInv(s, a.who, s.callers[a.who]);
    var c := s.callers[a.who].call;
    assert CallInv(s, c);
    if s.calls[c].outcome.value.Ok? {
      UsedCache(s, s', s.calls[c].name, s.calls[c].outcome.value.cert);
    }
    forall x | x in s'.callers ensures CallerInv(s', x, s'.callers[x]) {
      assert CallerInv(s, x, s.callers[x]);
    }
    forall c | 0 <= c < |s'.calls| ensures CallInv(s', c) {
      assert CallInv(s, c);
    }
  }

  lemma {:induction false} CloseKeeps(s: State, a: Action)
    requires Inv(s) && (a.Close? || a.Wake?) && Enabled(s, a)
    ensures Inv(Do(s, a))
  {
    var s' := Do(s, a);
    assert CallerInv(s, a.who, s.callers[a.who]);
    assert CallInv(s, s.callers[a.who].call);
    forall x | x in s'.callers ensures CallerInv(s', x, s'.callers[x]) {
      assert CallerInv(s, x, s.callers[x]);
    }
    forall c | 0 <= c < |s'.calls| ensures CallInv(s', c) {
      assert CallInv(s, c);
    }
  }

  lemma {:induction false} InvKept(s: State, a: Action)
    requires Inv(s) && Enabled(s, a)
    ensures Inv(Do(s, a))
  {
    match a {
      case Arrive(_, _) => ArriveKeeps(s, a);
      case Enter(t) =>
        if AnswerIn(s.cache, s.callers[t].name).Some? {
          HitKeeps(s, a);
        } else {
          MissKeeps(s, a);
        }
      case Mint(_, _) => MintKeeps(s, a);
      case Publish(_) => PublishKeeps(s, a);
      case Close(_) => CloseKeeps(s, a);
      case Wake(_) => CloseKeeps(s, a);
    }
  }

  // ---------------------------------------------------------------- the minter

  /** A call being minted, as leader and waiters share it. */
  class MintCall {
    ghost const id: CallId
    var result: Option<Result>
    var done: bool

    constructor (ghost id: CallId)
      ensures this.id == id && result == None && !done
    {
      this.id := id;
      result, done := None, false;
    }
  }

  datatype Entered = Hit(cert: Cert) | Join(call: MintCall) | Lead(call: MintCall)

  /** The calls under way are those of the machine, under the same names. */
  ghost predicate SameCalls(inflight: map<Name, MintCall>, calls: seq<MintCall>, s: State) {
    && inflight.Keys == s.inflight.Keys
    && forall name :: name in inflight ==> s.inflight[name] < |calls| && inflight[name] == calls[s.inflight[name]]
  }

  /**
   * What the mutex guards, with the machine's state and every call ever made as history. Each method is one critical
   * section of `certFor`, or what is done to a call outside the lock, and one step of the machine.
   */
  class CertMinter {
    const table: LruTable<Name, Cert>
    var inflight: map<Name, MintCall>
    ghost var calls: seq<MintCall>
    ghost var state: State

    ghost predicate Valid()
      reads this, table, table.lru, calls
    {
      Inv(state) && Tied()
    }

    /** The table, the calls under way and what every call holds are those of the machine. */
    ghost predicate Tied()
      reads this, table, table.lru, calls
    {
      && table.Valid() && table.cap == LEAF_CACHE_SIZE && table.contents == state.cache
      && SameCalls(inflight, calls, state)
      && Told()
    }

    /** Every call holds what the machine says it holds. */
    ghost predicate Told()
      reads this, calls
    {
      && |calls| == |state.calls|
      && forall c :: 0 <= c < |calls| ==>
           calls[c].id == c && calls[c].result == state.calls[c].outcome && calls[c].done == state.calls[c].done
    }

    constructor ()
      ensures Valid() && state == INIT
    {
      table := new LruTable(LEAF_CACHE_SIZE);
      inflight := map[];
      calls := [];
      state := INIT;
    }

    /** First critical section: a hit, the call already minting this name, or a new call to lead. */
    method Enter(ghost who: Caller, name: Name) returns (r: Entered)
      requires Valid() && who in state.callers && state.callers[who] == Entering(name)
      modifies this, table
      ensures Valid() && state == Do(old(state), Action.Enter(who))
      ensures old(calls) <= calls && (r.Lead? ==> fresh(r.call))
      ensures match r
              case Hit(c) => state.callers[who] == Returned(name, None, Ok(c))
              case Join(call) => call in calls && state.callers[who] == Waiting(name, call.id)
              case Lead(call) => call in calls && state.callers[who] == Minting(call.id)
    {
      InvKept(state, Action.Enter(who));
      r := EnterSection(who, name);
    }

    method EnterSection(ghost who: Caller, name: Name) returns (r: Entered)
      requires Tied() && who in state.callers && state.callers[who] == Entering(name)
      modifies this, table
      ensures Tied() && state == Do(old(state), Action.Enter(who))
      ensures old(calls) <= calls && (r.Lead? ==> fresh(r.call))
      ensures match r
              case Hit(c) => state.callers[who] == Returned(name, None, Ok(c))
              case Join(call) => call in calls && state.callers[who] == Waiting(name, call.id)
              case Lead(call) => call in calls && state.callers[who] == Minting(call.id)
    {
      var c := table.Get(name);
      if c.Some? {
        state := Do(state, Action.Enter(who));
        return Hit(c.value);
      }
      r := JoinOrLead(who, name);
    }

    /** The rest of the section, for a name that is not cached. */
    method JoinOrLead(ghost who: Caller, name: Name) returns (r: Entered)
      requires Tied() && who in state.callers && state.callers[who] == Entering(name)
      requires AnswerIn(state.cache, name) == None
      modifies this
      ensures Tied() && state == Do(old(state), Action.Enter(who)) && !r.Hit?
      ensures old(calls) <= calls && (r.Lead? ==> fresh(r.call))
      ensures r.Join? ==> r.call in calls && state.callers[who] == Waiting(name, r.call.id)
      ensures r.Lead? ==> r.call in calls && state.callers[who] == Minting(r.call.id)
    {
      if name in inflight {
        state := Do(state, Action.Enter(who));
        return Join(inflight[name]);
      }
      var call := StartCall(who, name);
      r := Lead(call);
    }

    /** A new call for a name that is neither cached nor being minted. */
    method StartCall(ghost who: Caller, name: Name) returns (call: MintCall)
      requires Tied() && who in state.callers && state.callers[who] == Entering(name)
      requires AnswerIn(state.cache, name) == None && name !in inflight
      modifies this
      ensures Tied() && state == Do(old(state), Action.Enter(who)) && fresh(call)
      ensures calls == old(calls) + [call] && state.callers[who] == Minting(call.id)
    {
      call := new MintCall(|calls|);
      ghost var before := state;
      state := Do(state, Action.Enter(who));
      inflight := inflight[name := call];
      calls := calls + [call];
      assert state.cache == before.cache && state.inflight == before.inflight[name := |before.calls|];
    }

    /** Outside the lock: the leader has minted. */
    method Minted(ghost who: Caller, call: MintCall, result: Result)
      requires Valid() && call in calls && who in state.callers && state.callers[who] == Minting(call.id)
      modifies this`state, call`result
      ensures Valid() && state == Do(old(state), Mint(who, result)) && call.result == Some(result)
    {
      InvKept(state, Mint(who, result));
      state := Do(state, Mint(who, result));
      call.result := Some(result);
    }

    /** Second critical section: the call is over, and a minted certificate enters the cache. */
    method Publish(ghost who: Caller, name: Name, call: MintCall)
      requires Valid() && call in calls && Enabled(state, Action.Publish(who))
      requires state.callers[who] == Pc.Minted(call.id) && state.calls[call.id].name == name
      modifies this, table
      ensures Valid() && state == Do(old(state), Action.Publish(who)) && calls == old(calls)
    {
      LeaderHolds(state, who);
      NotCached(name);
      InvKept(state, Action.Publish(who));
      PublishSection(who, name, call);
    }

    method PublishSection(ghost who: Caller, name: Name, call: MintCall)
      requires Tied() && call in calls && Enabled(state, Action.Publish(who)) && name !in table.items
      requires state.callers[who] == Pc.Minted(call.id) && state.calls[call.id].name == name
      modifies this, table
      ensures Tied() && state == Do(old(state), Action.Publish(who)) && calls == old(calls)
    {
      var result := call.result.value;
      state := Do(state, Action.Publish(who));
      inflight := inflight - {name};
      if result.Ok? {
        table.Push(name, result.cert);
      }
    }

    /** A name being minted is not in the cache. */
    lemma {:induction false} NotCached(name: Name)
      requires Valid() && name in state.inflight
      ensures name !in table.items
    {
      table.Present(name);
    }

    /** Closing the channel lets the waiters go on; the leader returns the result. */
    method Finish(ghost who: Caller, call: MintCall) returns (r: Result)
      requires Valid() && call in calls && Enabled(state, Close(who)) && state.callers[who].call == call.id
      modifies this`state, call`done
      ensures Valid() && state == Do(old(state), Close(who))
      ensures state.callers[who].Returned? && state.callers[who].result == r
    {
      InvKept(state, Close(who));
      state := Do(state, Close(who));
      call.done := true;
      r := call.result.value;
    }

    /** A waiter goes on once the channel is closed, and returns what the leader left. */
    method Await(ghost who: Caller, call: MintCall) returns (r: Result)
      requires Valid() && call in calls && Enabled(state, Wake(who)) && state.callers[who].call == call.id
      modifies this`state
      ensures Valid() && state == Do(old(state), Wake(who))
      ensures state.callers[who].Returned? && state.callers[who].result == r
    {
      InvKept(state, Wake(who));
      state := Do(state, Wake(who));
      r := call.result.value;
    }
  }

  lemma {:induction false} LeaderHolds(s: State, t: Caller)
    requires Inv(s) && t in s.callers && s.callers[t].Minted?
    ensures s.callers[t].call < |s.calls| && s.calls[s.callers[t].call].name in s.inflight
    ensures s.calls[s.callers[t].call].outcome.Some?
  {
    assert CallerInv(s, t, s.callers[t]);
  }

  // ---------------------------------------------------------------- runs

  ghost predicate IsRun(s: State, run: seq<Action>)
    decreases |run|
  {
    run == [] || (Enabled(s, run[0]) && IsRun(Do(s, run[0]), run[1..]))
  }

  ghost function After(s: State, run: seq<Action>): State
    requires IsRun(s, run)
    decreases |run|
  {
    if run == [] then s else After(Do(s, run[0]), run[1..])
  }

  lemma {:induction false} RunKeepsInv(s: State, run: seq<Action>)
    requires Inv(s) && IsRun(s, run)
    ensures Inv(After(s, run))
    decreases |run|
  {
    if run != [] {
      InvKept(s, run[0]);
      RunKeepsInv(Do(s, run[0]), run[1..]);
    }
  }

  ghost predicate Mints(s: State, t: Caller, name: Name) {
    t in s.callers && s.callers[t].Minting? && s.callers[t].call < |s.calls| && s.calls[s.callers[t].call].name == name
  }

  /** In every interleaving: at most one mint per name, and none for a cached name; the cache keeps its bound. */
  lemma {:induction false} SingleFlight(run: seq<Action>)
    requires IsRun(INIT, run)
    ensures var s := After(INIT, run);
            && Distinct(s.cache) && |s.cache| <= LEAF_CACHE_SIZE && Keys(s.cache) !! s.inflight.Keys
            && (forall t, u, name :: Mints(s, t, name) && Mints(s, u, name) ==> t == u)
            && (forall t, name :: Mints(s, t, name) ==> name in s.inflight && name !in Keys(s.cache))
  {
    RunKeepsInv(INIT, run);
    var s := After(INIT, run);
    assert forall t :: t in s.callers ==> CallerInv(s, t, s.callers[t]);
  }

  /** Everyone who returns through a call returns the same result, and it is the result its leader minted. */
  lemma {:induction false} SharedResult(run: seq<Action>, t: Caller, u: Caller)
    requires IsRun(INIT, run)
    requires var s := After(INIT, run);
             t in s.callers && u in s.callers && s.callers[t].Returned? && s.callers[u].Returned?
    requires var s := After(INIT, run); s.callers[t].via.Some? && s.callers[t].via == s.callers[u].via
    ensures var s := After(INIT, run);
            s.callers[t].result == s.callers[u].result && s.callers[t].name == s.callers[u].name
  {
    RunKeepsInv(INIT, run);
    var s := After(INIT, run);
    assert CallerInv(s, t, s.callers[t]) && CallerInv(s, u, s.callers[u]);
  }

  /** A returned certificate, cached or not, was minted for the name asked for. */
  lemma {:induction false} RightCertificate(run: seq<Action>, t: Caller)
    requires IsRun(INIT, run)
    requires var s := After(INIT, run); t in s.callers && s.callers[t].Returned? && s.callers[t].result.Ok?
    ensures var s := After(INIT, run); (s.callers[t].name, s.callers[t].result.cert) in s.made
  {
    RunKeepsInv(INIT, run);
    var s := After(INIT, run);
    assert CallerInv(s, t, s.callers[t]);
  }

  /** The next step of a caller that is not blocked. */
  ghost function NextStep(s: State, t: Caller): Action
    requires t in s.callers && !s.callers[t].Returned?
  {
    match s.callers[t]
    case Entering(_) => Enter(t)
    case Waiting(_, _) => Wake(t)
    case Minting(_) => Mint(t, Err)
    case Minted(_) => Publish(t)
    case Closing(_) => Close(t)
  }

  /** Nobody waits forever on a call nobody works on: a blocked waiter's leader can always take a step. */
  lemma {:induction false} NoLostWaiter(run: seq<Action>, t: Caller)
    requires IsRun(INIT, run)
    requires var s := After(INIT, run); t in s.callers && !s.callers[t].Returned?
    ensures var s := After(INIT, run);
            || Enabled(s, NextStep(s, t))
            || (&& s.callers[t].Waiting? && s.callers[t].call < |s.calls|
                && var l := s.calls[s.callers[t].call].leader;
                   l in s.callers && !s.callers[l].Returned? && Enabled(s, NextStep(s, l)))
  {
    RunKeepsInv(INIT, run);
    var s := After(INIT, run);
    assert CallerInv(s, t, s.callers[t]);
    if s.callers[t].Waiting? {
      var c := s.callers[t].call;
      assert CallInv(s, c);
      var l := s.calls[c].leader;
      if !s.calls[c].done {
        assert CallerInv(s, l, s.callers[l]);
      }
    }
  }

  // ---------------------------------------------------------------- what the cache is for

  /** What a step asks of the cache: every `certFor` looks its name up, and every good mint puts its certificate in. */
  ghost function Asked(s: State, a: Action): seq<Op<Name, Cert>>
    requires Enabled(s, a)
  {
    match a
    case Enter(t) => [Op.Lookup(s.callers[t].name)]
    case Publish(t) =>
      var call := s.calls[s.callers[t].call];
      if call.outcome.value.Ok? then [Op.Put(call.name, call.outcome.value.cert)] else []
    case _ => []
  }

  ghost function History(s: State, run: seq<Action>): seq<Op<Name, Cert>>
    requires IsRun(s, run)
    decreases |run|
  {
    if run == [] then [] else Asked(s, run[0]) + History(Do(s, run[0]), run[1..])
  }

  lemma {:induction false} OneMoreOp(ops: seq<Op<Name, Cert>>, op: Op<Name, Cert>)
    ensures RunOps(ops + [op], LEAF_CACHE_SIZE) == Apply(RunOps(ops, LEAF_CACHE_SIZE), op, LEAF_CACHE_SIZE)
    ensures LastPut(ops + [op], op.key) == if op.Put? then Some(op.value) else LastPut(ops, op.key)
    ensures forall k :: k != op.key ==> LastPut(ops + [op], k) == LastPut(ops, k)
    ensures var uses := UsesOf(ops, LEAF_CACHE_SIZE);
            UsesOf(ops + [op], LEAF_CACHE_SIZE)
            == if op.Put? || AmongRecent(uses, op.key, LEAF_CACHE_SIZE) then uses + [op.key] else uses
  {
    assert (ops + [op])[..|ops|] == ops;
  }

  lemma {:induction false} StepIsAsked(s: State, a: Action, ops: seq<Op<Name, Cert>>)
    requires Enabled(s, a) && s.cache == RunOps(ops, LEAF_CACHE_SIZE)
    ensures Do(s, a).cache == RunOps(ops + Asked(s, a), LEAF_CACHE_SIZE)
  {
    if Asked(s, a) == [] {
      assert ops + [] == ops;
    } else {
      OneMoreOp(ops, Asked(s, a)[0]);
    }
  }

  /** In every reachable state the cache is what the lookups and puts of the run make of an empty table. */
  lemma {:induction false} CacheIsHistory(s: State, run: seq<Action>, ops: seq<Op<Name, Cert>>)
    requires IsRun(s, run) && s.cache == RunOps(ops, LEAF_CACHE_SIZE)
    ensures After(s, run).cache == RunOps(ops + History(s, run), LEAF_CACHE_SIZE)
    decreases |run|
  {
    if run == [] {
      assert ops + [] == ops;
    } else {
      var more := Asked(s, run[0]);
      StepIsAsked(s, run[0], ops);
      CacheIsHistory(Do(s, run[0]), run[1..], ops + more);
      Regroup(ops, more, History(Do(s, run[0]), run[1..]));
    }
  }

  /**
   * In every reachable state a caller is answered from the cache exactly if its name is among the 64 most recently
   * used, with the certificate last put in for it; otherwise it joins the mint under way or leads a new one.
   */
  lemma {:induction false} AnsweredIff(run: seq<Action>, t: Caller, c: Cert)
    requires IsRun(INIT, run) && Enabled(After(INIT, run), Enter(t))
    ensures var s := After(INIT, run);
            var name, ops := s.callers[t].name, History(INIT, run);
            Do(s, Enter(t)).callers[t] == Returned(name, None, Ok(c))
            <==> AmongRecent(UsesOf(ops, 64), name, 64) && LastPut(ops, name) == Some(c)
    ensures var s := After(INIT, run);
            var name := s.callers[t].name;
            !AmongRecent(UsesOf(History(INIT, run), 64), name, 64) ==>
              Do(s, Enter(t)).callers[t]
              == if name in s.inflight then Waiting(name, s.inflight[name]) else Minting(|s.calls|)
    ensures var s := After(INIT, run);
            var name := s.callers[t].name;
            AmongRecent(UsesOf(History(INIT, run), 64), name, 64) ==> Do(s, Enter(t)).calls == s.calls
  {
    var ops := History(INIT, run);
    CacheIsHistory(INIT, run, []);
    assert [] + ops == ops;
    TableAnswers(ops, LEAF_CACHE_SIZE, After(INIT, run).callers[t].name);
  }

  ghost function KeysOf(ops: seq<Op<Name, Cert>>): set<Name> {
    set i | 0 <= i < |ops| :: ops[i].key
  }

  /** A certificate put in for `name` is still the one there, and only `others` were used since. */
  ghost predicate Cached(s: State, ops: seq<Op<Name, Cert>>, name: Name, c: Cert, others: set<Name>) {
    && s.cache == RunOps(ops, LEAF_CACHE_SIZE) && LastPut(ops, name) == Some(c)
    && name in UsesOf(ops, LEAF_CACHE_SIZE) && Since(UsesOf(ops, LEAF_CACHE_SIZE), name) <= others
  }

  lemma {:induction false} CachedAnswers(s: State, ops: seq<Op<Name, Cert>>, name: Name, c: Cert, others: set<Name>)
    requires Cached(s, ops, name, c, others) && |others| < LEAF_CACHE_SIZE
    ensures AmongRecent(UsesOf(ops, LEAF_CACHE_SIZE), name, LEAF_CACHE_SIZE) && AnswerIn(s.cache, name) == Some(c)
  {
    SubsetSize(Since(UsesOf(ops, LEAF_CACHE_SIZE), name), others);
    TableAnswers(ops, LEAF_CACHE_SIZE, name);
  }

  lemma {:induction false} SubsetSize<T>(a: set<T>, b: set<T>)
    requires a <= b
    ensures |a| <= |b|
    decreases |a|
  {
    if a != {} {
      var x :| x in a;
      SubsetSize(a - {x}, b - {x});
    }
  }

  /** As long as a name is cached nobody publishes it again. */
  lemma {:induction false} CachedStep(
      s: State, a: Action, ops: seq<Op<Name, Cert>>, name: Name, c: Cert, others: set<Name>)
    requires Inv(s) && Enabled(s, a) && Cached(s, ops, name, c, others) && |others| < LEAF_CACHE_SIZE
    requires KeysOf(Asked(s, a)) <= others + {name}
    ensures Cached(Do(s, a), ops + Asked(s, a), name, c, others)
  {
    StepIsAsked(s, a, ops);
    CachedAnswers(s, ops, name, c, others);
    if Asked(s, a) == [] {
      assert ops + [] == ops;
    } else {
      var op := Asked(s, a)[0];
      assert op.key in KeysOf(Asked(s, a));
      OneMoreOp(ops, op);
      SinceAppend(UsesOf(ops, LEAF_CACHE_SIZE), op.key, name);
      if op.Put? {
        LeaderHolds(s, a.who);
        assert s.cache[IndexOf(s.cache, name)].key !in s.inflight;
      }
    }
  }

  lemma {:induction false} CachedRun(
      s: State, run: seq<Action>, ops: seq<Op<Name, Cert>>, name: Name, c: Cert, others: set<Name>)
    requires Inv(s) && IsRun(s, run) && Cached(s, ops, name, c, others) && |others| < LEAF_CACHE_SIZE
    requires KeysOf(History(s, run)) <= others + {name}
    ensures Cached(After(s, run), ops + History(s, run), name, c, others)
    decreases |run|
  {
    if run == [] {
      assert ops + [] == ops;
    } else {
      var more, later := Asked(s, run[0]), History(Do(s, run[0]), run[1..]);
      KeysOfBoth(more, later);
      CachedStep(s, run[0], ops, name, c, others);
      InvKept(s, run[0]);
      CachedRun(Do(s, run[0]), run[1..], ops + more, name, c, others);
      Regroup(ops, more, later);
    }
  }

  lemma {:induction false} KeysOfBoth(xs: seq<Op<Name, Cert>>, ys: seq<Op<Name, Cert>>)
    ensures KeysOf(xs) <= KeysOf(xs + ys) && KeysOf(ys) <= KeysOf(xs + ys)
  {
    forall k | k in KeysOf(xs) ensures k in KeysOf(xs + ys) {
      var i :| 0 <= i < |xs| && xs[i].key == k;
      assert (xs + ys)[i].key == k;
    }
    forall k | k in KeysOf(ys) ensures k in KeysOf(xs + ys) {
      var i :| 0 <= i < |ys| && ys[i].key == k;
      assert (xs + ys)[|xs| + i].key == k;
    }
  }

  /**
   * Once a leader has published a certificate, the next `certFor` for that name returns it without a new mint, as long
   * as fewer than 64 other names have been used in between, in whatever interleaving.
   */
  lemma {:induction false} PublishedIsServed(run: seq<Action>, u: Caller, later: seq<Action>, t: Caller)
    requires IsRun(INIT, run) && Enabled(After(INIT, run), Publish(u))
    requires var s := After(INIT, run);
             s.calls[s.callers[u].call].outcome.value.Ok? && IsRun(Do(s, Publish(u)), later)
    requires var s, s1 := After(INIT, run), Do(After(INIT, run), Publish(u));
             var name, s2 := s.calls[s.callers[u].call].name, After(s1, later);
             && |KeysOf(History(s1, later)) - {name}| < 64
             && t in s2.callers && s2.callers[t] == Entering(name)
    ensures var s, s1 := After(INIT, run), Do(After(INIT, run), Publish(u));
            var call, s2 := s.calls[s.callers[u].call], After(s1, later);
            && Do(s2, Enter(t)).callers[t] == Returned(call.name, None, call.outcome.value)
            && Do(s2, Enter(t)).calls == s2.calls && Do(s2, Enter(t)).inflight == s2.inflight
  {
    var s, ops := After(INIT, run), History(INIT, run);
    RunKeepsInv(INIT, run);
    CacheIsHistory(INIT, run, []);
    assert [] + ops == ops;
    InvKept(s, Publish(u));
    JustPublished(s, u, ops);
    var call := s.calls[s.callers[u].call];
    var put := Op.Put(call.name, call.outcome.value.cert);
    ServedLater(Do(s, Publish(u)), ops + [put], later, t, call.name, put.value);
  }

  lemma {:induction false} ServedLater(
      s: State, ops: seq<Op<Name, Cert>>, later: seq<Action>, t: Caller, name: Name, c: Cert)
    requires Inv(s) && Cached(s, ops, name, c, {}) && IsRun(s, later)
    requires |KeysOf(History(s, later)) - {name}| < LEAF_CACHE_SIZE
    requires t in After(s, later).callers && After(s, later).callers[t] == Entering(name)
    ensures var s2 := After(s, later);
            && Do(s2, Enter(t)).callers[t] == Returned(name, None, Ok(c))
            && Do(s2, Enter(t)).calls == s2.calls && Do(s2, Enter(t)).inflight == s2.inflight
  {
    var others := KeysOf(History(s, later)) - {name};
    CachedRun(s, later, ops, name, c, others);
    CachedAnswers(After(s, later), ops + History(s, later), name, c, others);
  }

  lemma {:induction false} JustPublished(s: State, u: Caller, ops: seq<Op<Name, Cert>>)
    requires Enabled(s, Publish(u)) && s.cache == RunOps(ops, LEAF_CACHE_SIZE)
    requires s.calls[s.callers[u].call].outcome.value.Ok?
    ensures var call := s.calls[s.callers[u].call];
            var c := call.outcome.value.cert;
            Cached(Do(s, Publish(u)), ops + [Op.Put(call.name, c)], call.name, c, {})
  {
    var call := s.calls[s.callers[u].call];
    StepIsAsked(s, Publish(u), ops);
    OneMoreOp(ops, Op.Put(call.name, call.outcome.value.cert));
    SinceAppend(UsesOf(ops, LEAF_CACHE_SIZE), call.name, call.name);
  }
}
