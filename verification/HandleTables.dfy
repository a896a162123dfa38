/**
 * Connection and exec handles of a transport, racing with the transport's Close. Opening registers a handle and
 * then re-reads the closed flag; Close sets the flag and then drains both tables; explicit closes may come at any
 * time for any reference. Every step is one atomic operation or one critical section of the transport mutex.
 */
module HandleTables {

  datatype Kind = Stream | Exec

  /** A reference as the application sees it. */
  datatype Key = Key(kind: Kind, ref: nat)

  type Conn = nat
  type Actor = nat

  /** What an actor does once everything it took has been closed. */
  datatype Then = Finish | DrainExec

  datatype Pc =
    | Starting(kind: Kind)
    | Dialing(kind: Kind)
    | Opened(kind: Kind, conn: Conn)
    | Numbered(key: Key, conn: Conn)
    | Filed(key: Key)
    | Taking(key: Key)
    | Shutting
    | Draining(kind: Kind)
    | Closing(pending: set<Conn>, next: Then)
    | Finished

  /** Where a connection is; history only, no step looks at it. */
  datatype Place = Held(owner: Actor) | Tabled(key: Key, owner: Actor) | Pending(owner: Actor) | Closed

  /**
   * `places`, `drained` and `winner` are history: one entry per opened connection, the tables Close has emptied, who
   * won.
   */
  datatype State = State(
    closed: bool,
    streamRefs: nat,
    execRefs: nat,
    table: map<Key, Conn>,
    closes: multiset<Conn>,
    actors: map<Actor, Pc>,
    places: seq<Place>,
    drained: set<Kind>,
    winner: Actor)

  const INIT := State(false, 0, 0, map[], multiset{}, map[], [], {}, 0)

  datatype Action =
    | BeginOpen(who: Actor, kind: Kind)
    | BeginClose(who: Actor, key: Key)
    | BeginShutdown(who: Actor)
    | CheckOpen(who: Actor)
    | Dial(who: Actor, ok: bool)
    | Number(who: Actor)
    | File(who: Actor)
    | Recheck(who: Actor)
    | Take(who: Actor)
    | Shut(who: Actor)
    | Drain(who: Actor)
    | CloseOne(who: Actor, conn: Conn)
    | CloseDone(who: Actor)

  ghost predicate Enabled(s: State, a: Action) {
    if a.BeginOpen? || a.BeginClose? || a.BeginShutdown? then a.who !in s.actors
    else
      && a.who in s.actors
      && var pc := s.actors[a.who];
         match a
         case CheckOpen(_) => pc.Starting?
         case Dial(_, _) => pc.Dialing?
         case Number(_) => pc.Opened?
         case File(_) => pc.Numbered?
         case Recheck(_) => pc.Filed?
         case Take(_) => pc.Taking?
         case Shut(_) => pc.Shutting?
         case Drain(_) => pc.Draining?
         case CloseOne(_, c) => pc.Closing? && c in pc.pending && c < |s.places|
         case CloseDone(_) => pc.Closing? && pc.pending == {}
  }

  ghost function At(s: State, t: Actor, pc: Pc): State {
    s.(actors := s.actors[t := pc])
  }

  ghost function Moved(places: seq<Place>, moved: set<Conn>, to: Place): seq<Place> {
    seq(|places|, c requires 0 <= c < |places| => if c in moved then to else places[c])
  }

  /** The connections filed under these keys. */
  ghost function Under(s: State, keys: set<Key>): set<Conn> {
    set k | k in keys && k in s.table :: s.table[k]
  }

  /** Takes a set of keys out of the table; their connections are now the taker's to close. */
  ghost function TakeKeys(s: State, t: Actor, keys: set<Key>, next: Then): State {
    var conns := Under(s, keys);
    s.(table := s.table - keys,
       places := Moved(s.places, conns, Pending(t)),
       actors := s.actors[t := Closing(conns, next)])
  }

  ghost function KeysOf(s: State, kind: Kind): set<Key> {
    set k | k in s.table && k.kind == kind
  }

  ghost function Do(s: State, a: Action): State
    requires Enabled(s, a)
  {
    var t := a.who;
    match a
    case BeginOpen(_, kind) => At(s, t, Starting(kind))
    case BeginClose(_, key) => At(s, t, Taking(key))
    case BeginShutdown(_) => At(s, t, Shutting)
    case CheckOpen(_) => At(s, t, if s.closed then Finished else Dialing(s.actors[t].kind))
    case Dial(_, ok) =>
      if ok then At(s, t, Opened(s.actors[t].kind, |s.places|)).(places := s.places + [Held(t)])
      else At(s, t, Finished)
    case Number(_) =>
      var pc := s.actors[t];
      if pc.kind == Stream
      then At(s, t, Numbered(Key(Stream, s.streamRefs + 1), pc.conn)).(streamRefs := s.streamRefs + 1)
      else At(s, t, Numbered(Key(Exec, s.execRefs + 1), pc.conn)).(execRefs := s.execRefs + 1)
    case File(_) =>
      var pc := s.actors[t];
      At(s, t, Filed(pc.key)).(
        table := s.table[pc.key := pc.conn],
        places := Moved(s.places, {pc.conn}, Tabled(pc.key, t)))
    case Recheck(_) => At(s, t, if s.closed then Taking(s.actors[t].key) else Finished)
    case Take(_) =>
      var key := s.actors[t].key;
      if key in s.table then TakeKeys(s, t, {key}, Finish) else At(s, t, Finished)
    case Shut(_) =>
      if s.closed then At(s, t, Finished)
      else At(s, t, Draining(Stream)).(closed := true, winner := t)
    case Drain(_) =>
      var kind := s.actors[t].kind;
      TakeKeys(s, t, KeysOf(s, kind), if kind == Stream then DrainExec else Finish).(drained := s.drained + {kind})
    case CloseOne(_, c) =>
      var pc := s.actors[t];
      At(s, t, Closing(pc.pending - {c}, pc.next)).(
        closes := s.closes + multiset{c},
        places := s.places[c := Closed])
    case CloseDone(_) => At(s, t, if s.actors[t].next == Finish then Finished else Draining(Exec))
  }

  // ---------------------------------------------------------------- the invariant

  ghost predicate Refs(s: State, key: Key) {
    key.ref <= if key.kind == Stream then s.streamRefs else s.execRefs
  }

  /** Each connection is in exactly the place its entry names. */
  ghost predicate PlaceInv(s: State, c: Conn, p: Place) {
    match p
    case Held(t) =>
      && t in s.actors
      && ((s.actors[t].Opened? && s.actors[t].conn == c) || (s.actors[t].Numbered? && s.actors[t].conn == c))
    case Tabled(key, t) =>
      && key in s.table && s.table[key] == c
      && (key.kind in s.drained ==> t in s.actors && (s.actors[t] == Filed(key) || s.actors[t] == Taking(key)))
    case Pending(t) => t in s.actors && s.actors[t].Closing? && c in s.actors[t].pending
    case Closed => true
  }

  ghost predicate ActorInv(s: State, t: Actor, pc: Pc) {
    match pc
    case Opened(_, c) => c < |s.places| && s.places[c] == Held(t)
    case Numbered(key, c) => c < |s.places| && s.places[c] == Held(t) && key !in s.table && Refs(s, key)
    case Draining(kind) => s.closed && s.winner == t && s.drained == if kind == Stream then {} else {Stream}
    case Closing(pending, next) =>
      && (forall c :: c in pending ==> c < |s.places| && s.places[c] == Pending(t))
      && (next == DrainExec ==> s.closed && s.winner == t && s.drained == {Stream})
    case _ => true
  }

  /** Once the flag is set, either both tables have been drained or the winner is still on its way. */
  ghost predicate ShutdownInv(s: State) {
    && (s.drained != {} ==> s.closed)
    && (s.closed ==> s.drained == {Stream, Exec} || (s.winner in s.actors && OnItsWay(s.actors[s.winner])))
  }

  ghost predicate OnItsWay(pc: Pc) {
    pc.Draining? || (pc.Closing? && pc.next == DrainExec)
  }

  ghost predicate TableInv(s: State) {
    && (forall k :: k in s.table ==>
        s.table[k] < |s.places| && s.places[s.table[k]].Tabled? && s.places[s.table[k]].key == k && Refs(s, k))
    && (forall t, u ::
          (t in s.actors && u in s.actors && s.actors[t].Numbered? && s.actors[u].Numbered? &&
           s.actors[t].key == s.actors[u].key) ==> t == u)
  }

  ghost predicate CountInv(s: State) {
    && (forall c :: 0 <= c < |s.places| ==> s.closes[c] == if s.places[c].Closed? then 1 else 0)
    && (forall c :: c in s.closes ==> c < |s.places|)
  }

  ghost predicate PlacesInv(s: State) {
    forall c :: 0 <= c < |s.places| ==> PlaceInv(s, c, s.places[c])
  }

  ghost predicate ActorsInv(s: State) {
    forall t :: t in s.actors ==> ActorInv(s, t, s.actors[t])
  }

  ghost predicate Inv(s: State) {
    && PlacesInv(s)
    && ActorsInv(s)
    && ShutdownInv(s)
    && TableInv(s)
    && CountInv(s)
  }

  lemma {:induction false} BeginStep(s: State, a: Action)
    requires Inv(s) && Enabled(s, a) && (a.BeginOpen? || a.BeginClose? || a.BeginShutdown?)
    ensures Inv(Do(s, a))
  {
    var s' := Do(s, a);
    forall c | 0 <= c < |s'.places| ensures PlaceInv(s', c, s'.places[c]) {
      assert PlaceInv(s, c, s.places[c]);
    }
    forall t | t in s'.actors ensures ActorInv(s', t, s'.actors[t]) {
      assert t in s.actors ==> ActorInv(s, t, s.actors[t]);
    }
  }

  lemma {:induction false} CheckStep(s: State, a: Action)
    requires Inv(s) && Enabled(s, a) && (a.CheckOpen? || a.Recheck?)
    ensures Inv(Do(s, a))
  {
    var s' := Do(s, a);
    forall c | 0 <= c < |s'.places| ensures PlaceInv(s', c, s'.places[c]) {
      assert PlaceInv(s, c, s.places[c]);
    }
    forall t | t in s'.actors ensures ActorInv(s', t, s'.actors[t]) {
      assert t in s.actors ==> ActorInv(s, t, s.actors[t]);
    }
  }

  lemma {:induction false} ShutStep(s: State, a: Action)
    requires Inv(s) && Enabled(s, a) && a.Shut?
    ensures Inv(Do(s, a))
  {
    var s' := Do(s, a);
    forall c | 0 <= c < |s'.places| ensures PlaceInv(s', c, s'.places[c]) {
      assert PlaceInv(s, c, s.places[c]);
    }
    forall t | t in s'.actors ensures ActorInv(s', t, s'.actors[t]) {
      assert t in s.actors ==> ActorInv(s, t, s.actors[t]);
    }
  }

  lemma {:induction false} CloseDoneStep(s: State, a: Action)
    requires Inv(s) && Enabled(s, a) && a.CloseDone?
    ensures Inv(Do(s, a))
  {
    var s' := Do(s, a);
    assert ActorInv(s, a.who, s.actors[a.who]);
    forall c | 0 <= c < |s'.places| ensures PlaceInv(s', c, s'.places[c]) {
      assert PlaceInv(s, c, s.places[c]);
    }
    forall t | t in s'.actors ensures ActorInv(s', t, s'.actors[t]) {
      assert t in s.actors ==> ActorInv(s, t, s.actors[t]);
    }
  }

  lemma {:induction false} DialPlaces(s: State, a: Action)
    requires Inv(s) && Enabled(s, a) && a.Dial?
    ensures PlacesInv(Do(s, a))
  {
    var s' := Do(s, a);
    forall c | 0 <= c < |s'.places| ensures PlaceInv(s', c, s'.places[c]) {
      assert c < |s.places| ==> PlaceInv(s, c, s.places[c]);
    }
  }

  lemma {:induction false} DialActors(s: State, a: Action)
    requires Inv(s) && Enabled(s, a) && a.Dial?
    ensures ActorsInv(Do(s, a))
  {
    var s' := Do(s, a);
    forall t | t in s'.actors ensures ActorInv(s', t, s'.actors[t]) {
      assert t in s.actors ==> ActorInv(s, t, s.actors[t]);
    }
  }

  lemma {:induction false} DialStep(s: State, a: Action)
    requires Inv(s) && Enabled(s, a) && a.Dial?
    ensures Inv(Do(s, a))
  {
    DialPlaces(s, a);
    DialActors(s, a);
  }

  /** A fresh number is beyond every reference in the table and every number already handed out. */
  lemma {:induction false} FreshNumber(s: State, a: Action)
    requires Inv(s) && Enabled(s, a) && a.Number?
    ensures TableInv(Do(s, a)) && Do(s, a).actors[a.who].key !in s.table
  {
    var s' := Do(s, a);
    var key := s'.actors[a.who].key;
    assert !Refs(s, key);
    forall t | t in s.actors && s.actors[t].Numbered? ensures s.actors[t].key != key {
      assert ActorInv(s, t, s.actors[t]);
    }
    assert s'.table == s.table && s'.places == s.places;
    assert forall k :: Refs(s, k) ==> Refs(s', k);
  }

  lemma {:induction false} NumberPlaces(s: State, a: Action)
    requires Inv(s) && Enabled(s, a) && a.Number?
    ensures PlacesInv(Do(s, a))
  {
    var s' := Do(s, a);
    assert ActorInv(s, a.who, s.actors[a.who]);
    forall c | 0 <= c < |s'.places| ensures PlaceInv(s', c, s'.places[c]) {
      assert PlaceInv(s, c, s.places[c]);
    }
  }

  lemma {:induction false} NumberActors(s: State, a: Action)
    requires Inv(s) && Enabled(s, a) && a.Number?
    ensures ActorsInv(Do(s, a))
  {
    var s' := Do(s, a);
    FreshNumber(s, a);
    assert ActorInv(s, a.who, s.actors[a.who]);
    forall t | t in s'.actors ensures ActorInv(s', t, s'.actors[t]) {
      assert ActorInv(s, t, s.actors[t]);
    }
  }

  lemma {:induction false} NumberStep(s: State, a: Action)
    requires Inv(s) && Enabled(s, a) && a.Number?
    ensures Inv(Do(s, a))
  {
    NumberPlaces(s, a);
    NumberActors(s, a);
    FreshNumber(s, a);
  }

  lemma {:induction false} FilePlaces(s: State, a: Action)
    requires Inv(s) && Enabled(s, a) && a.File?
    ensures PlacesInv(Do(s, a))
  {
    var s' := Do(s, a);
    assert ActorInv(s, a.who, s.actors[a.who]);
    forall c | 0 <= c < |s'.places| ensures PlaceInv(s', c, s'.places[c]) {
      assert PlaceInv(s, c, s.places[c]);
    }
  }

  lemma {:induction false} FileActors(s: State, a: Action)
    requires Inv(s) && Enabled(s, a) && a.File?
    ensures ActorsInv(Do(s, a))
  {
    var s' := Do(s, a);
    assert ActorInv(s, a.who, s.actors[a.who]);
    forall t | t in s'.actors ensures ActorInv(s', t, s'.actors[t]) {
      assert ActorInv(s, t, s.actors[t]);
    }
  }

  lemma {:induction false} FileTable(s: State, a: Action)
    requires Inv(s) && Enabled(s, a) && a.File?
    ensures TableInv(Do(s, a))
  {
    assert ActorInv(s, a.who, s.actors[a.who]);
  }

  lemma {:induction false} FileCount(s: State, a: Action)
    requires Inv(s) && Enabled(s, a) && a.File?
    ensures CountInv(Do(s, a))
  {
    assert ActorInv(s, a.who, s.actors[a.who]);
  }

  lemma {:induction false} FileStep(s: State, a: Action)
    requires Inv(s) && Enabled(s, a) && a.File?
    ensures Inv(Do(s, a))
  {
    FilePlaces(s, a);
    FileActors(s, a);
    FileTable(s, a);
    FileCount(s, a);
  }

  /** Connections outside the keys taken keep their places. */
  lemma {:induction false} TakenPlaces(s: State, t: Actor, keys: set<Key>, next: Then)
    requires Inv(s) && t in s.actors && (s.actors[t].Taking? || s.actors[t].Draining?)
    ensures var s' := TakeKeys(s, t, keys, next);
            && (forall k :: k in s.table && k in keys ==> s'.places[s.table[k]] == Pending(t))
            && (forall c :: 0 <= c < |s.places| && !(s.places[c].Tabled? && s.places[c].key in keys) ==>
                s'.places[c] == s.places[c])
            && TableInv(s') && CountInv(s')
  {
    var s' := TakeKeys(s, t, keys, next);
    var conns := Under(s, keys);
    forall k | k in s'.table ensures s.table[k] !in conns {}
  }

  lemma {:induction false} TakePlaces(s: State, a: Action)
    requires Inv(s) && Enabled(s, a) && a.Take? && s.actors[a.who].key in s.table
    ensures PlacesInv(Do(s, a))
  {
    var s' := Do(s, a);
    TakenPlaces(s, a.who, {s.actors[a.who].key}, Finish);
    forall c | 0 <= c < |s'.places| ensures PlaceInv(s', c, s'.places[c]) {
      assert PlaceInv(s, c, s.places[c]);
    }
  }

  lemma {:induction false} TakeActors(s: State, a: Action)
    requires Inv(s) && Enabled(s, a) && a.Take? && s.actors[a.who].key in s.table
    ensures ActorsInv(Do(s, a))
  {
    var s' := Do(s, a);
    TakenPlaces(s, a.who, {s.actors[a.who].key}, Finish);
    forall t | t in s'.actors ensures ActorInv(s', t, s'.actors[t]) {
      assert ActorInv(s, t, s.actors[t]);
    }
  }

  lemma {:induction false} TakeStep(s: State, a: Action)
    requires Inv(s) && Enabled(s, a) && a.Take? && s.actors[a.who].key in s.table
    ensures Inv(Do(s, a))
  {
    TakePlaces(s, a);
    TakeActors(s, a);
    TakenPlaces(s, a.who, {s.actors[a.who].key}, Finish);
  }

  lemma {:induction false} DrainPlaces(s: State, a: Action)
    requires Inv(s) && Enabled(s, a) && a.Drain?
    ensures PlacesInv(Do(s, a))
  {
    var s' := Do(s, a);
    var kind := s.actors[a.who].kind;
    assert ActorInv(s, a.who, s.actors[a.who]);
    TakenPlaces(s, a.who, KeysOf(s, kind), if kind == Stream then DrainExec else Finish);
    forall c | 0 <= c < |s'.places| ensures PlaceInv(s', c, s'.places[c]) {
      assert PlaceInv(s, c, s.places[c]);
    }
  }

  lemma {:induction false} DrainActors(s: State, a: Action)
    requires Inv(s) && Enabled(s, a) && a.Drain?
    ensures ActorsInv(Do(s, a))
  {
    var s' := Do(s, a);
    var kind := s.actors[a.who].kind;
    assert ActorInv(s, a.who, s.actors[a.who]);
    TakenPlaces(s, a.who, KeysOf(s, kind), if kind == Stream then DrainExec else Finish);
    forall t | t in s'.actors ensures ActorInv(s', t, s'.actors[t]) {
      assert ActorInv(s, t, s.actors[t]);
    }
  }

  lemma {:induction false} DrainStep(s: State, a: Action)
    requires Inv(s) && Enabled(s, a) && a.Drain?
    ensures Inv(Do(s, a))
  {
    DrainPlaces(s, a);
    DrainActors(s, a);
    var kind := s.actors[a.who].kind;
    assert ActorInv(s, a.who, s.actors[a.who]);
    TakenPlaces(s, a.who, KeysOf(s, kind), if kind == Stream then DrainExec else Finish);
  }

  lemma {:induction false} CloseOnePlaces(s: State, a: Action)
    requires Inv(s) && Enabled(s, a) && a.CloseOne?
    ensures PlacesInv(Do(s, a))
  {
    var s' := Do(s, a);
    assert ActorInv(s, a.who, s.actors[a.who]);
    forall c | 0 <= c < |s'.places| ensures PlaceInv(s', c, s'.places[c]) {
      assert PlaceInv(s, c, s.places[c]);
    }
  }

  lemma {:induction false} CloseOneActors(s: State, a: Action)
    requires Inv(s) && Enabled(s, a) && a.CloseOne?
    ensures ActorsInv(Do(s, a))
  {
    var s' := Do(s, a);
    assert ActorInv(s, a.who, s.actors[a.who]);
    forall t | t in s'.actors ensures ActorInv(s', t, s'.actors[t]) {
      assert ActorInv(s, t, s.actors[t]);
    }
  }

  lemma {:induction false} CloseOneTable(s: State, a: Action)
    requires Inv(s) && Enabled(s, a) && a.CloseOne?
    ensures TableInv(Do(s, a))
  {
    assert ActorInv(s, a.who, s.actors[a.who]);
  }

  lemma {:induction false} CloseOneCount(s: State, a: Action)
    requires Inv(s) && Enabled(s, a) && a.CloseOne?
    ensures CountInv(Do(s, a))
  {
    assert ActorInv(s, a.who, s.actors[a.who]);
  }

  lemma {:induction false} CloseOneStep(s: State, a: Action)
    requires Inv(s) && Enabled(s, a) && a.CloseOne?
    ensures Inv(Do(s, a))
  {
    CloseOnePlaces(s, a);
    CloseOneActors(s, a);
    CloseOneTable(s, a);
    CloseOneCount(s, a);
  }

  lemma {:induction false} InvKept(s: State, a: Action)
    requires Inv(s) && Enabled(s, a)
    ensures Inv(Do(s, a))
  {
    match a {
      case Dial(_, _) => DialStep(s, a);
      case Number(_) => NumberStep(s, a);
      case File(_) => FileStep(s, a);
      case CloseOne(_, _) => CloseOneStep(s, a);
      case Drain(_) => DrainStep(s, a);
      case Take(t) =>
        if s.actors[t].key in s.table {
          TakeStep(s, a);
        } else {
          MissStep(s, a);
        }
      case CheckOpen(_) => CheckStep(s, a);
      case Recheck(_) => CheckStep(s, a);
      case Shut(_) => ShutStep(s, a);
      case CloseDone(_) => CloseDoneStep(s, a);
      case _ => BeginStep(s, a);
    }
  }

  lemma {:induction false} MissStep(s: State, a: Action)
    requires Inv(s) && Enabled(s, a) && a.Take? && s.actors[a.who].key !in s.table
    ensures Inv(Do(s, a))
  {
    var s' := Do(s, a);
    forall c | 0 <= c < |s'.places| ensures PlaceInv(s', c, s'.places[c]) {
      assert PlaceInv(s, c, s.places[c]);
    }
    forall t | t in s'.actors ensures ActorInv(s', t, s'.actors[t]) {
      assert ActorInv(s, t, s.actors[t]);
    }
  }

  // ---------------------------------------------------------------- the transport

  /** A table of handles and the part of the machine's table for that kind are the same. */
  ghost predicate Tied(kind: Kind, channels: map<nat, Conn>, table: map<Key, Conn>) {
    && (forall r :: r in channels ==> Key(kind, r) in table && table[Key(kind, r)] == channels[r])
    && (forall k :: k in table && k.kind == kind ==> k.ref in channels)
  }

  lemma {:induction false} FileTied(kind: Kind, channels: map<nat, Conn>, table: map<Key, Conn>, key: Key, conn: Conn)
    requires Tied(kind, channels, table)
    ensures Tied(kind, if key.kind == kind then channels[key.ref := conn] else channels, table[key := conn])
  {}

  lemma {:induction false} TakeTied(kind: Kind, channels: map<nat, Conn>, table: map<Key, Conn>, key: Key)
    requires Tied(kind, channels, table)
    ensures Tied(kind, if key.kind == kind then channels - {key.ref} else channels, table - {key})
    ensures key.kind == kind ==> (key.ref in channels <==> key in table)
    ensures key.kind == kind && key in table ==> channels[key.ref] == table[key]
  {
    assert key.kind == kind && key.ref in channels ==> Key(kind, key.ref) == key;
  }

  /** What taking one handle does, in the words of the table. */
  lemma {:induction false} TakenOne(s: State, t: Actor)
    requires t in s.actors && s.actors[t].Taking?
    ensures var key := s.actors[t].key;
            var s' := Do(s, Take(t));
            && s'.closed == s.closed && s'.streamRefs == s.streamRefs && s'.execRefs == s.execRefs
            && s'.table == s.table - {key}
            && s'.actors[t] == if key in s.table then Closing({s.table[key]}, Finish) else Finished
  {
    var key := s.actors[t].key;
    assert key in s.table ==> Under(s, {key}) == {s.table[key]};
    assert key !in s.table ==> s.table - {key} == s.table;
  }

  lemma {:induction false} DrainTied(kind: Kind, channels: map<nat, Conn>, s: State, drained: Kind)
    requires Tied(kind, channels, s.table)
    ensures Tied(kind, if kind == drained then map[] else channels, s.table - KeysOf(s, drained))
  {}

  ghost function Values(channels: map<nat, Conn>): set<Conn> {
    set r | r in channels :: channels[r]
  }

  lemma {:induction false} DrainedConns(kind: Kind, channels: map<nat, Conn>, s: State)
    requires Tied(kind, channels, s.table)
    ensures Values(channels) == Under(s, KeysOf(s, kind))
  {
    forall r | r in channels ensures channels[r] in Under(s, KeysOf(s, kind)) {
      assert Key(kind, r) in KeysOf(s, kind);
    }
    forall k | k in KeysOf(s, kind) ensures s.table[k] in Values(channels) {
      assert k == Key(kind, k.ref) && k.ref in channels;
    }
  }

  ghost predicate NoRepeats(cs: seq<Conn>) {
    forall i, j :: 0 <= i < j < |cs| ==> cs[i] != cs[j]
  }

  /** Different handles are different connections. */
  ghost predicate Injective(channels: map<nat, Conn>) {
    forall q, r :: q in channels && r in channels && channels[q] == channels[r] ==> q == r
  }

  lemma {:induction false} OneHandleEach(s: State, kind: Kind, channels: map<nat, Conn>)
    requires TableInv(s) && Tied(kind, channels, s.table)
    ensures Injective(channels)
  {
    forall q, r | q in channels && r in channels && channels[q] == channels[r] ensures q == r {
      var k, l := Key(kind, q), Key(kind, r);
      assert s.places[s.table[k]].key == k && s.places[s.table[l]].key == l;
    }
  }

  /** The connections of a table, in some order. */
  method Snapshot(channels: map<nat, Conn>) returns (cs: seq<Conn>)
    ensures (set c | c in cs) == Values(channels)
    ensures Injective(channels) ==> NoRepeats(cs)
  {
    cs := [];
    var rest := channels.Keys;
    while rest != {}
      invariant rest <= channels.Keys && (Injective(channels) ==> NoRepeats(cs))
      invariant forall c :: c in cs ==> exists r :: r in channels && r !in rest && channels[r] == c
      invariant forall r :: r in channels && r !in rest ==> channels[r] in cs
      decreases |rest|
    {
      var ref :| ref in rest;
      assert Injective(channels) ==> channels[ref] !in cs;
      cs := cs + [channels[ref]];
      rest := rest - {ref};
    }
  }

  /**
   * The closed flag, the counters and the two handle tables, with the machine's state as history. Every method is
   * one atomic operation or one critical section, and one action.
   */
  class Transport {
    var closed: bool
    var nextStreamLocalRef: nat
    var nextExecRef: nat
    var streamLocalChannels: map<nat, Conn>
    var execChannels: map<nat, Conn>
    ghost var state: State

    ghost predicate Valid()
      reads this
    {
      && closed == state.closed && nextStreamLocalRef == state.streamRefs && nextExecRef == state.execRefs
      && Tied(Stream, streamLocalChannels, state.table)
      && Tied(Exec, execChannels, state.table)
    }

    constructor ()
      ensures Valid() && state == INIT
    {
      closed := false;
      nextStreamLocalRef, nextExecRef := 0, 0;
      streamLocalChannels, execChannels := map[], map[];
      state := INIT;
    }

    /** The flag as it is read before dialing, and again after registering. */
    method LoadClosed(ghost who: Actor) returns (r: bool)
      requires Valid() && who in state.actors && (state.actors[who].Starting? || state.actors[who].Filed?)
      modifies this`state
      ensures Valid() && r == closed
      ensures state == Do(old(state), if old(state).actors[who].Starting? then CheckOpen(who) else Recheck(who))
      ensures r ==> state.actors[who].Finished? || state.actors[who].Taking?
      ensures !r ==> state.actors[who].Dialing? || state.actors[who].Finished?
    {
      ghost var a := if state.actors[who].Starting? then CheckOpen(who) else Recheck(who);
      state := Do(state, a);
      r := closed;
    }

    method NextRef(ghost who: Actor, kind: Kind) returns (ref: nat)
      requires Valid() && who in state.actors && state.actors[who].Opened? && state.actors[who].kind == kind
      modifies this
      ensures Valid() && state == Do(old(state), Number(who))
      ensures state.actors[who] == Numbered(Key(kind, ref), old(state).actors[who].conn)
    {
      state := Do(state, Number(who));
      if kind == Stream {
        nextStreamLocalRef := nextStreamLocalRef + 1;
        ref := nextStreamLocalRef;
      } else {
        nextExecRef := nextExecRef + 1;
        ref := nextExecRef;
      }
    }

    method Register(ghost who: Actor, kind: Kind, ref: nat, conn: Conn)
      requires Valid() && who in state.actors && state.actors[who] == Numbered(Key(kind, ref), conn)
      modifies this
      ensures Valid() && state == Do(old(state), File(who))
    {
      FileTied(Stream, streamLocalChannels, state.table, Key(kind, ref), conn);
      FileTied(Exec, execChannels, state.table, Key(kind, ref), conn);
      state := Do(state, File(who));
      if kind == Stream {
        streamLocalChannels := streamLocalChannels[ref := conn];
      } else {
        execChannels := execChannels[ref := conn];
      }
    }

    /** The section of StreamLocalClose: the connection to close, if the handle is known. */
    method TakeStreamLocal(ghost who: Actor, ref: nat) returns (conn: set<Conn>)
      requires Valid() && who in state.actors && state.actors[who] == Taking(Key(Stream, ref))
      modifies this
      ensures Valid() && state == Do(old(state), Take(who))
      ensures state.actors[who] == if conn == {} then Finished else Closing(conn, Finish)
    {
      TakeTied(Stream, streamLocalChannels, state.table, Key(Stream, ref));
      TakeTied(Exec, execChannels, state.table, Key(Stream, ref));
      TakenOne(state, who);
      state := Do(state, Take(who));
      conn := {};
      if ref in streamLocalChannels {
        conn := {streamLocalChannels[ref]};
        streamLocalChannels := streamLocalChannels - {ref};
      }
    }

    /** The section of ExecClose. */
    method TakeExec(ghost who: Actor, ref: nat) returns (conn: set<Conn>)
      requires Valid() && who in state.actors && state.actors[who] == Taking(Key(Exec, ref))
      modifies this
      ensures Valid() && state == Do(old(state), Take(who))
      ensures state.actors[who] == if conn == {} then Finished else Closing(conn, Finish)
    {
      TakeTied(Stream, streamLocalChannels, state.table, Key(Exec, ref));
      TakeTied(Exec, execChannels, state.table, Key(Exec, ref));
      TakenOne(state, who);
      state := Do(state, Take(who));
      conn := {};
      if ref in execChannels {
        conn := {execChannels[ref]};
        execChannels := execChannels - {ref};
      }
    }

    /** The compare-and-swap that decides which Close wins. */
    method SetClosed(ghost who: Actor) returns (won: bool)
      requires Valid() && who in state.actors && state.actors[who].Shutting?
      modifies this
      ensures Valid() && closed && state == Do(old(state), Shut(who))
      ensures state.actors[who] == if won then Draining(Stream) else Finished
    {
      state := Do(state, Shut(who));
      won := !closed;
      closed := true;
    }

    /**
     * The sections of closeAllStreamLocal and closeAllExec: the connections to close, each once in every reachable
     * state.
     */
    method Drain(ghost who: Actor, kind: Kind) returns (cs: seq<Conn>)
      requires Valid() && who in state.actors && state.actors[who] == Draining(kind)
      modifies this
      ensures Valid() && state == Do(old(state), Action.Drain(who))
      ensures state.actors[who].Closing? && state.actors[who].pending == set c | c in cs
      ensures TableInv(old(state)) ==> NoRepeats(cs)
    {
      var channels := if kind == Stream then streamLocalChannels else execChannels;
      cs := Snapshot(channels);
      DrainedConns(kind, channels, state);
      if TableInv(state) {
        OneHandleEach(state, kind, channels);
      }
      DrainTied(Stream, streamLocalChannels, state, kind);
      DrainTied(Exec, execChannels, state, kind);
      state := Do(state, Action.Drain(who));
      if kind == Stream {
        streamLocalChannels := map[];
      } else {
        execChannels := map[];
      }
    }
  }

  // ---------------------------------------------------------------- runs

  ghost predicate IsRun(s: State, run: seq<Action>)
    decreases |run|
  {
    run == [] || (Enabled(s, run[0]) && IsRun(Do(s, run[0]), run[1..]))
  }

  ghost function After(s: State, run: seq<Action>): State
    requires IsRun(s, run)
    decreases |run|
  {
    if run == [] then s else After(Do(s, run[0]), run[1..])
  }

  lemma {:induction false} RunKeepsInv(s: State, run: seq<Action>)
    requires Inv(s) && IsRun(s, run)
    ensures Inv(After(s, run))
    decreases |run|
  {
    if run != [] {
      InvKept(s, run[0]);
      RunKeepsInv(Do(s, run[0]), run[1..]);
    }
  }

  /** In every interleaving, at every moment, no connection has been closed twice. */
  lemma {:induction false} NeverClosedTwice(run: seq<Action>, c: Conn)
    requires IsRun(INIT, run)
    ensures After(INIT, run).closes[c] <= 1
  {
    RunKeepsInv(INIT, run);
  }

  /** The step an actor takes next. */
  lemma {:induction false} NextStep(s: State, t: Actor) returns (a: Action)
    requires t in s.actors && !s.actors[t].Finished? && ActorInv(s, t, s.actors[t])
    ensures a.who == t && Enabled(s, a)
  {
    match s.actors[t] {
      case Starting(_) => a := CheckOpen(t);
      case Dialing(_) => a := Dial(t, false);
      case Opened(_, _) => a := Number(t);
      case Numbered(_, _) => a := File(t);
      case Filed(_) => a := Recheck(t);
      case Taking(_) => a := Take(t);
      case Shutting => a := Shut(t);
      case Draining(_) => a := Drain(t);
      case Closing(pending, _) =>
        if pending == {} {
          a := CloseDone(t);
        } else {
          var c :| c in pending;
          a := CloseOne(t, c);
        }
    }
  }

  /** Whoever is not finished can take a step of its own: no interleaving blocks. */
  lemma {:induction false} NeverStuck(run: seq<Action>, t: Actor)
    requires IsRun(INIT, run)
    requires t in After(INIT, run).actors && !After(INIT, run).actors[t].Finished?
    ensures exists a: Action :: a.who == t && Enabled(After(INIT, run), a)
  {
    RunKeepsInv(INIT, run);
    var a := NextStep(After(INIT, run), t);
  }

  /**
   * In every interleaving in which Close has been called and everyone is done, both tables are empty and every
   * connection or exec channel that was ever opened has been closed exactly once.
   */
  lemma {:induction false} NothingLeaks(run: seq<Action>)
    requires IsRun(INIT, run)
    requires After(INIT, run).closed
    requires forall t :: t in After(INIT, run).actors ==> After(INIT, run).actors[t].Finished?
    ensures After(INIT, run).table == map[]
    ensures forall c :: 0 <= c < |After(INIT, run).places| ==> After(INIT, run).closes[c] == 1
  {
    RunKeepsInv(INIT, run);
    var s := After(INIT, run);
    forall c | 0 <= c < |s.places| ensures s.places[c].Closed? {
      assert PlaceInv(s, c, s.places[c]);
    }
  }

  // ---------------------------------------------------------------- what a handle is for

  /** Someone was asked to close this handle, or Close has come to its table. */
  ghost predicate TakesAway(s: State, a: Action, key: Key)
    requires Enabled(s, a)
  {
    (a.Take? && s.actors[a.who].key == key) || (a.Drain? && s.actors[a.who].kind == key.kind)
  }

  /** Nothing else takes a handle out of its table or puts another connection under it. */
  lemma {:induction false} HandleStays(s: State, a: Action, key: Key)
    requires Inv(s) && Enabled(s, a) && key in s.table && !TakesAway(s, a, key)
    ensures key in Do(s, a).table && Do(s, a).table[key] == s.table[key]
  {
    if a.File? {
      assert ActorInv(s, a.who, s.actors[a.who]);
    }
  }

  ghost predicate LeftAlone(s: State, run: seq<Action>, key: Key)
    requires IsRun(s, run)
    decreases |run|
  {
    run == [] || (!TakesAway(s, run[0], key) && LeftAlone(Do(s, run[0]), run[1..], key))
  }

  /** In every interleaving a handle stands for its connection until someone is asked to close it or Close comes. */
  lemma {:induction false} HandleLasts(s: State, run: seq<Action>, key: Key)
    requires Inv(s) && IsRun(s, run) && key in s.table && LeftAlone(s, run, key)
    ensures key in After(s, run).table && After(s, run).table[key] == s.table[key]
    decreases |run|
  {
    if run != [] {
      HandleStays(s, run[0], key);
      InvKept(s, run[0]);
      HandleLasts(Do(s, run[0]), run[1..], key);
    }
  }

  lemma {:induction false} RunCons(s: State, a: Action, run: seq<Action>)
    requires Enabled(s, a) && IsRun(Do(s, a), run)
    ensures IsRun(s, [a] + run) && After(s, [a] + run) == After(Do(s, a), run)
  {
    assert ([a] + run)[1..] == run;
  }

  ghost function NextRef(s: State, kind: Kind): Key {
    Key(kind, 1 + if kind == Stream then s.streamRefs else s.execRefs)
  }

  /** The state once `t` has dialed and holds a connection. */
  ghost function Dialed(s: State, t: Actor, kind: Kind): State {
    s.(actors := s.actors[t := Opened(kind, |s.places|)], places := s.places + [Held(t)])
  }

  lemma {:induction false} OpenDials(s: State, t: Actor, kind: Kind)
    requires t !in s.actors && !s.closed
    ensures var run := [BeginOpen(t, kind)] + ([CheckOpen(t)] + ([Dial(t, true)] + []));
            IsRun(s, run) && After(s, run) == Dialed(s, t, kind)
  {
    var s1 := Do(s, BeginOpen(t, kind));
    var s2 := Do(s1, CheckOpen(t));
    assert Do(s2, Dial(t, true)).actors == Dialed(s, t, kind).actors;
    RunCons(s2, Dial(t, true), []);
    RunCons(s1, CheckOpen(t), [Dial(t, true)] + []);
    RunCons(s, BeginOpen(t, kind), [CheckOpen(t)] + ([Dial(t, true)] + []));
  }

  lemma {:induction false} DialedFiles(s: State, t: Actor, kind: Kind, c: Conn)
    requires t in s.actors && s.actors[t] == Opened(kind, c) && !s.closed
    ensures var run := [Number(t)] + ([File(t)] + ([Recheck(t)] + []));
            && IsRun(s, run)
            && var s' := After(s, run);
               && s'.table == s.table[NextRef(s, kind) := c] && s'.closes == s.closes
               && t in s'.actors && s'.actors[t] == Finished
  {
    var s1 := Do(s, Number(t));
    var s2 := Do(s1, File(t));
    RunCons(s2, Recheck(t), []);
    RunCons(s1, File(t), [Recheck(t)] + []);
    RunCons(s, Number(t), [File(t)] + ([Recheck(t)] + []));
  }

  /** An open that nothing interrupts ends with a new handle in the table for the connection it dialed. */
  lemma {:induction false} OpenGivesHandle(s: State, t: Actor, kind: Kind)
    requires Inv(s) && t !in s.actors && !s.closed
    ensures NextRef(s, kind) !in s.table
    ensures var first := [BeginOpen(t, kind)] + ([CheckOpen(t)] + ([Dial(t, true)] + []));
            var rest := [Number(t)] + ([File(t)] + ([Recheck(t)] + []));
            && IsRun(s, first) && IsRun(After(s, first), rest)
            && var s' := After(After(s, first), rest);
               && s'.table == s.table[NextRef(s, kind) := |s.places|] && s'.closes == s.closes
               && t in s'.actors && s'.actors[t] == Finished
  {
    OpenDials(s, t, kind);
    DialedFiles(Dialed(s, t, kind), t, kind, |s.places|);
    assert NextRef(Dialed(s, t, kind), kind) == NextRef(s, kind);
    assert NextRef(s, kind) in s.table ==> Refs(s, NextRef(s, kind));
  }
}
