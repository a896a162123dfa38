/**
 * How UDP mode spreads over a chain of jump hosts. A login to a hop may first log in to its proxies, and the first of
 * those to its own; a hop that must be reached over UDP forces UDP on every hop before it. A UDP session needs a UDP
 * session with the hop it is reached through, and is refused otherwise. All sessions share one global timeout.
 */
module UdpLogin {
  import opened Bytes

  datatype Mode = No | Yes | Kcp | Quic

  type Name = bytes

  /**
   * A hop as configured. `written` is the mode looked up for the destination as it is written in the proxy list,
   * `parsed` the mode looked up after the destination has been parsed. `control`: a multiplexed connection exists;
   * `command`: a proxy command is configured.
   */
  datatype Hop = Hop(name: Name, written: Mode, parsed: Mode, control: bool, command: bool, proxies: seq<Hop>)

  /**
   * What concerns the global timeout: a call to initialise it from a hop's configuration, and a UDP session that needs
   * it.
   */
  datatype Event = Ask(who: Name) | Use(who: Name)

  /**
   * The events in order, and the modes of the hops on the way to the hop logged in to, itself last; None if refused.
   */
  datatype Login = Login(trace: seq<Event>, path: Option<seq<Mode>>)

  /** The mode of a hop under a requirement. */
  function Merged(require: Mode, mode: Mode): Mode {
    if require != No && mode == No then require else mode
  }

  /** The requirement that is passed on. */
  function PassedOn(require: Mode, mode: Mode): Mode {
    if require == No then mode else require
  }

  /** The first mode met without a requirement asks for the timeout. */
  function Asks(require: Mode, mode: Mode, who: Name): seq<Event> {
    if require == No && mode != No then [Ask(who)] else []
  }

  // ---------------------------------------------------------------- the backward pass

  /** The requirement once a proxy list has been gone through from its end: the mode nearest the target wins. */
  function Inherited(ps: seq<Hop>, require: Mode): Mode {
    if ps == [] then require else PassedOn(Inherited(ps[1..], require), ps[0].written)
  }

  /** The mode each proxy is to be logged in with. */
  function Assigned(ps: seq<Hop>, require: Mode): (us: seq<Mode>)
    ensures |us| == |ps|
  {
    if ps == [] then [] else [Merged(Inherited(ps[1..], require), ps[0].written)] + Assigned(ps[1..], require)
  }

  function ListAsks(ps: seq<Hop>, require: Mode): seq<Event> {
    if ps == [] then []
    else ListAsks(ps[1..], require) + Asks(Inherited(ps[1..], require), ps[0].written, ps[0].name)
  }

  lemma {:induction false} AssignedAt(ps: seq<Hop>, require: Mode, i: nat)
    requires i < |ps|
    ensures Assigned(ps, require)[i] == Merged(Inherited(ps[i + 1..], require), ps[i].written)
  {
    if i > 0 {
      AssignedAt(ps[1..], require, i - 1);
      assert ps[1..][i..] == ps[i + 1..];
    }
  }

  method AssignModes(proxies: seq<Hop>, require: Mode) returns (modes: array<Mode>, trace: seq<Event>)
    ensures fresh(modes) && modes[..] == Assigned(proxies, require)
    ensures trace == ListAsks(proxies, require)
  {
    modes := new Mode[|proxies|](_ => No);
    trace := [];
    var required := require;
    var i := |proxies|;
    while i > 0
      invariant 0 <= i <= |proxies| && modes.Length == |proxies|
      invariant required == Inherited(proxies[i..], require) && trace == ListAsks(proxies[i..], require)
      invariant forall j :: i <= j < |proxies| ==> modes[j] == Assigned(proxies, require)[j]
    {
      i := i - 1;
      var mode := proxies[i].written;
      AssignedAt(proxies, require, i);
      assert proxies[i..][1..] == proxies[i + 1..];
      if required != No && mode == No {
        mode := required;
      }
      if required == No && mode != No {
        trace := trace + [Ask(proxies[i].name)];
        required := mode;
      }
      modes[i] := mode;
    }
    assert proxies[0..] == proxies;
  }

  // ---------------------------------------------------------------- logging in

  /** The end of a login: a UDP session, if there is to be one, needs a UDP session with the hop before. */
  function Arrive(who: Name, trace: seq<Event>, before: seq<Mode>, mode: Mode): Login {
    if mode == No then Login(trace, Some(before + [No]))
    else if before != [] && before[|before| - 1] == No then Login(trace, None)
    else Login(trace + [Use(who)], Some(before + [mode]))
  }

  /**
   * A login that uses no proxies of the hop's own: through the hops before, or past them over a multiplexed connection.
   */
  function Reach(h: Hop, before: seq<Mode>, require: Mode): Login {
    Arrive(h.name, Asks(require, h.parsed, h.name), if h.control then [] else before, Merged(require, h.parsed))
  }

  /** The proxies after the first, each through the one before it. */
  function Later(ps: seq<Hop>, us: seq<Mode>, before: seq<Mode>): Login
    requires |ps| == |us|
    decreases |ps|
  {
    if ps == [] then Login([], Some(before))
    else
      var l := Reach(ps[0], before, us[0]);
      if l.path == None then l
      else
        var more := Later(ps[1..], us[1..], l.path.value);
        Login(l.trace + more.trace, more.path)
  }

  predicate GoesThroughProxies(h: Hop) {
    !h.control && !h.command && h.proxies != []
  }

  /** The remaining proxies and then the target. */
  function Onward(h: Hop, trace: seq<Event>, before: seq<Mode>, ps: seq<Hop>, us: seq<Mode>, mode: Mode): Login
    requires |ps| == |us|
  {
    var later := Later(ps, us, before);
    if later.path == None then Login(trace + later.trace, None)
    else Arrive(h.name, trace + later.trace, later.path.value, mode)
  }

  /** What is asked before the first proxy is logged in to. */
  function Asked(h: Hop, require: Mode): seq<Event> {
    Asks(require, h.parsed, h.name) + ListAsks(h.proxies, PassedOn(require, h.parsed))
  }

  /** A login to `h` from this machine, with a required mode. */
  function LogIn(h: Hop, require: Mode): Login
    decreases h
  {
    if !GoesThroughProxies(h) then Reach(h, [], require)
    else
      var us := Assigned(h.proxies, PassedOn(require, h.parsed));
      var first := LogIn(h.proxies[0], us[0]);
      if first.path == None then Login(Asked(h, require) + first.trace, None)
      else Onward(h, Asked(h, require) + first.trace, first.path.value, h.proxies[1..], us[1..],
          Merged(require, h.parsed))
  }

  lemma {:induction false} OnwardStep(h: Hop, trace: seq<Event>, before: seq<Mode>, ps: seq<Hop>, us: seq<Mode>,
      mode: Mode)
    requires |ps| == |us| > 0
    ensures var l := Reach(ps[0], before, us[0]);
            Onward(h, trace, before, ps, us, mode)
            == if l.path == None then Login(trace + l.trace, None)
               else Onward(h, trace + l.trace, l.path.value, ps[1..], us[1..], mode)
  {
    var l := Reach(ps[0], before, us[0]);
    if l.path.Some? {
      var more := Later(ps[1..], us[1..], l.path.value);
      assert trace + (l.trace + more.trace) == trace + l.trace + more.trace;
    }
  }

  method SshLogin(h: Hop, via: Option<seq<Mode>>, require: Mode) returns (r: Login)
    ensures r == if via.Some? then Reach(h, via.value, require) else LogIn(h, require)
    decreases h, 1
  {
    var mode, required, asked: seq<Event> := h.parsed, require, [];
    if required != No && mode == No {
      mode := required;
    }
    if required == No && mode != No {
      asked := [Ask(h.name)];
      required := mode;
    }
    if h.control {
      return Arrive(h.name, asked, [], mode);
    }
    if via.Some? {
      return Arrive(h.name, asked, via.value, mode);
    }
    if h.command || |h.proxies| == 0 {
      return Arrive(h.name, asked, [], mode);
    }
    r := ThroughProxies(h, require, asked, required, mode);
  }

  /** The proxies of a hop in order, and then the hop itself. */
  method ThroughProxies(h: Hop, ghost require: Mode, asked: seq<Event>, required: Mode, mode: Mode) returns (r: Login)
    requires GoesThroughProxies(h) && asked == Asks(require, h.parsed, h.name)
    requires required == PassedOn(require, h.parsed) && mode == Merged(require, h.parsed)
    ensures r == LogIn(h, require)
    decreases h, 0
  {
    var modes, passed := AssignModes(h.proxies, required);
    var us := modes[..];
    var trace := asked + passed;
    var proxy: Option<seq<Mode>> := None;
    var i := 0;
    while i < |h.proxies|
      invariant 0 <= i <= |h.proxies|
      invariant i == 0 ==> proxy == None && trace == Asked(h, require)
      invariant i > 0 ==>
                  proxy.Some? && LogIn(h, require) == Onward(h, trace, proxy.value, h.proxies[i..], us[i..], mode)
    {
      var login := SshLogin(h.proxies[i], proxy, us[i]);
      if i > 0 {
        OnwardStep(h, trace, proxy.value, h.proxies[i..], us[i..], mode);
        assert h.proxies[i..][1..] == h.proxies[i + 1..] && us[i..][1..] == us[i + 1..];
      }
      trace := trace + login.trace;
      if login.path == None {
        return Login(trace, None);
      }
      proxy := login.path;
      i := i + 1;
    }
    assert h.proxies[i..] == [] && us[i..] == [] && trace + [] == trace;
    r := Arrive(h.name, trace, proxy.value, mode);
  }

  // ---------------------------------------------------------------- what is assigned

  /** No written mode from `i` on: nothing is passed back to these proxies. */
  predicate Unreached(ps: seq<Hop>, i: nat) {
    i < |ps| && forall k :: i <= k < |ps| ==> ps[k].written == No
  }

  lemma {:induction false} InheritedNo(ps: seq<Hop>, require: Mode)
    ensures Inherited(ps, require) == No <==> require == No && (ps == [] || Unreached(ps, 0))
  {
    if ps != [] {
      InheritedNo(ps[1..], require);
      assert forall k :: 0 < k < |ps| ==> ps[k] == ps[1..][k - 1];
    }
  }

  lemma {:induction false} AssignedNoIff(ps: seq<Hop>, require: Mode, i: nat)
    requires i < |ps|
    ensures Assigned(ps, require)[i] == No <==> require == No && Unreached(ps, i)
  {
    AssignedAt(ps, require, i);
    InheritedNo(ps[i + 1..], require);
    assert forall k :: i < k < |ps| ==> ps[k] == ps[i + 1..][k - i - 1];
  }

  /** Proxy `k`, at `from` or behind it, is the last one with a written mode. */
  predicate LastModeAt(ps: seq<Hop>, from: nat, k: nat) {
    from <= k < |ps| && ps[k].written != No && forall j :: k < j < |ps| ==> ps[j].written == No
  }

  lemma {:induction false} InheritedIs(ps: seq<Hop>, require: Mode)
    ensures require != No ==> Inherited(ps, require) == require
    ensures require == No && (forall j :: 0 <= j < |ps| ==> ps[j].written == No) ==> Inherited(ps, require) == No
    ensures forall k: nat :: require == No && LastModeAt(ps, 0, k) ==> Inherited(ps, require) == ps[k].written
  {
    if ps != [] {
      InheritedIs(ps[1..], require);
      assert forall j :: 0 < j < |ps| ==> ps[j] == ps[1..][j - 1];
      forall k: nat | require == No && LastModeAt(ps, 0, k) ensures Inherited(ps, require) == ps[k].written {
        if k > 0 {
          assert LastModeAt(ps[1..], 0, k - 1);
        }
      }
    }
  }

  /**
   * The mode of a proxy: its own written mode; else the required one; else that of the last proxy behind it that has
   * one; else none.
   */
  lemma {:induction false} AssignedIs(ps: seq<Hop>, require: Mode, i: nat)
    requires i < |ps|
    ensures ps[i].written != No ==> Assigned(ps, require)[i] == ps[i].written
    ensures ps[i].written == No && require != No ==> Assigned(ps, require)[i] == require
    ensures forall k: nat :: ps[i].written == No && require == No && LastModeAt(ps, i + 1, k) ==>
              Assigned(ps, require)[i] == ps[k].written
    ensures require == No && (forall j :: i <= j < |ps| ==> ps[j].written == No) ==> Assigned(ps, require)[i] == No
  {
    AssignedAt(ps, require, i);
    var later := ps[i + 1..];
    InheritedIs(later, require);
    assert forall j :: i < j < |ps| ==> ps[j] == later[j - i - 1];
    forall k: nat | ps[i].written == No && require == No && LastModeAt(ps, i + 1, k)
      ensures Assigned(ps, require)[i] == ps[k].written
    {
      assert LastModeAt(later, 0, k - i - 1);
    }
  }

  /** The proxy nearest the target that has a written mode. */
  function LastWritten(ps: seq<Hop>): Name
    requires ps != [] && !Unreached(ps, 0)
  {
    var m := |ps| - 1;
    if ps[m].written != No then ps[m].name
    else
      assert !Unreached(ps[..m], 0) by {
        var k :| 0 <= k < |ps| && ps[k].written != No;
        assert ps[..m][k] == ps[k];
      }
      LastWritten(ps[..m])
  }

  lemma {:induction false} LastWrittenAt(ps: seq<Hop>) returns (k: nat)
    requires ps != [] && !Unreached(ps, 0)
    ensures LastModeAt(ps, 0, k) && LastWritten(ps) == ps[k].name
    decreases |ps|
  {
    var m := |ps| - 1;
    if ps[m].written != No {
      k := m;
    } else {
      var j :| 0 <= j < |ps| && ps[j].written != No;
      assert ps[..m][j] == ps[j];
      k := LastWrittenAt(ps[..m]);
    }
  }

  lemma {:induction false} LastWrittenFront(ps: seq<Hop>)
    requires ps != [] && !Unreached(ps, 0)
    ensures LastWritten(ps) == if |ps| > 1 && !Unreached(ps[1..], 0) then LastWritten(ps[1..]) else ps[0].name
  {
    var k := LastWrittenAt(ps);
    assert forall j :: 0 < j < |ps| ==> ps[j] == ps[1..][j - 1];
    if |ps| > 1 && !Unreached(ps[1..], 0) {
      var l := LastWrittenAt(ps[1..]);
      assert ps[l + 1] == ps[1..][l];
    }
  }

  /** The backward pass asks once, for the proxy nearest the target that has a mode, or not at all. */
  lemma {:induction false} ListAsksOnce(ps: seq<Hop>, require: Mode)
    requires ps != []
    ensures ListAsks(ps, require) == if require == No && !Unreached(ps, 0) then [Ask(LastWritten(ps))] else []
  {
    InheritedNo(ps[1..], require);
    assert forall k :: 0 < k < |ps| ==> ps[k] == ps[1..][k - 1];
    if |ps| > 1 {
      ListAsksOnce(ps[1..], require);
    }
    if !Unreached(ps, 0) {
      LastWrittenFront(ps);
    }
  }

  // ---------------------------------------------------------------- the way to a hop

  /** The mode of each proxy: its own once it has been parsed, else the one assigned to it. */
  function Modes(ps: seq<Hop>, us: seq<Mode>): seq<Mode>
    requires |ps| == |us|
  {
    seq(|ps|, i requires 0 <= i < |ps| => if ps[i].parsed != No then ps[i].parsed else us[i])
  }

  /** Proxy `i` is the last with a multiplexed connection, so the hops before it are not on the way. */
  predicate LastControl(ps: seq<Hop>, i: nat) {
    i < |ps| && ps[i].control && forall k :: i < k < |ps| ==> !ps[k].control
  }

  predicate NoControl(ps: seq<Hop>) {
    forall k :: 0 <= k < |ps| ==> !ps[k].control
  }

  lemma {:induction false} ReachedPath(h: Hop, before: seq<Mode>, require: Mode)
    ensures var r := Reach(h, before, require);
            r.path.Some? ==>
              r.path.value == (if h.control then [] else before) + [if h.parsed != No then h.parsed else require]
  {}

  lemma {:induction false} ModesFirst(ps: seq<Hop>, us: seq<Mode>)
    requires |ps| == |us| > 0
    ensures Modes(ps, us) == [if ps[0].parsed != No then ps[0].parsed else us[0]] + Modes(ps[1..], us[1..])
  {}

  lemma {:induction false} LaterDirect(ps: seq<Hop>, us: seq<Mode>, before: seq<Mode>)
    requires |ps| == |us| && Later(ps, us, before).path.Some? && NoControl(ps)
    ensures Later(ps, us, before).path.value == before + Modes(ps, us)
    decreases |ps|
  {
    if ps == [] {
      assert before + Modes(ps, us) == before;
    } else {
      var path := Reach(ps[0], before, us[0]).path.value;
      ReachedPath(ps[0], before, us[0]);
      ModesFirst(ps, us);
      assert NoControl(ps[1..]);
      LaterDirect(ps[1..], us[1..], path);
      Regroup(before, [if ps[0].parsed != No then ps[0].parsed else us[0]], Modes(ps[1..], us[1..]));
    }
  }

  lemma {:induction false} LaterFrom(ps: seq<Hop>, us: seq<Mode>, before: seq<Mode>, i: nat)
    requires |ps| == |us| && Later(ps, us, before).path.Some? && LastControl(ps, i)
    ensures Later(ps, us, before).path.value == Modes(ps, us)[i..]
    decreases |ps|
  {
    var path := Reach(ps[0], before, us[0]).path.value;
    ReachedPath(ps[0], before, us[0]);
    ModesFirst(ps, us);
    if i > 0 {
      assert ps[1..][i - 1] == ps[i];
      LaterFrom(ps[1..], us[1..], path, i - 1);
    } else {
      assert NoControl(ps[1..]);
      LaterDirect(ps[1..], us[1..], path);
      assert [] + path == path && Modes(ps, us)[0..] == Modes(ps, us);
    }
  }

  /** The requirement that the proxies of `h` are logged in under: the one from outside, else the hop's own mode. */
  function RequiredOf(h: Hop, require: Mode): Mode {
    if require != No then require else h.parsed
  }

  /**
   * The way of a login that is not refused, hop by hop: the way to the first proxy, or nothing of it if a later one is
   * multiplexed; the other proxies; and the hop itself, each with its own mode if it has one, else the required one.
   */
  lemma {:induction false} PathOf(h: Hop, require: Mode)
    requires LogIn(h, require).path.Some?
    ensures var own := if h.parsed != No then h.parsed else require;
            var path := LogIn(h, require).path.value;
            if h.control || h.command || h.proxies == [] then path == [own]
            else
              var us := Assigned(h.proxies, RequiredOf(h, require));
              var ps, vs := h.proxies[1..], us[1..];
              && LogIn(h.proxies[0], us[0]).path.Some?
              && (NoControl(ps) ==> path == LogIn(h.proxies[0], us[0]).path.value + Modes(ps, vs) + [own])
              && (forall i: nat :: LastControl(ps, i) ==> path == Modes(ps, vs)[i..] + [own])
  {
    if GoesThroughProxies(h) {
      var us := Assigned(h.proxies, RequiredOf(h, require));
      var first := LogIn(h.proxies[0], us[0]);
      var ps, vs, before := h.proxies[1..], us[1..], first.path.value;
      if NoControl(ps) {
        LaterDirect(ps, vs, before);
      }
      forall i: nat | LastControl(ps, i) ensures Later(ps, vs, before).path.value == Modes(ps, vs)[i..] {
        LaterFrom(ps, vs, before, i);
      }
    }
  }

  // ---------------------------------------------------------------- UDP hops are reached through UDP hops

  /** A hop that uses UDP is reached only through hops that use UDP. */
  ghost predicate UdpFirst(path: seq<Mode>) {
    forall i, j :: 0 <= i < j < |path| && path[j] != No ==> path[i] != No
  }

  ghost predicate AllUdp(path: seq<Mode>) {
    forall i :: 0 <= i < |path| ==> path[i] != No
  }

  function Last(path: seq<Mode>): Mode
    requires path != []
  {
    path[|path| - 1]
  }

  lemma {:induction false} ArriveUdpFirst(who: Name, trace: seq<Event>, before: seq<Mode>, mode: Mode)
    requires UdpFirst(before)
    ensures var r := Arrive(who, trace, before, mode);
            r.path.Some? ==> r.path.value == before + [mode] && UdpFirst(r.path.value)
  {}

  lemma {:induction false} LaterUdpFirst(ps: seq<Hop>, us: seq<Mode>, before: seq<Mode>)
    requires |ps| == |us| && before != [] && UdpFirst(before)
    ensures var r := Later(ps, us, before); r.path.Some? ==> r.path.value != [] && UdpFirst(r.path.value)
    decreases |ps|
  {
    if ps != [] {
      var b := if ps[0].control then [] else before;
      ArriveUdpFirst(ps[0].name, Asks(us[0], ps[0].parsed, ps[0].name), b, Merged(us[0], ps[0].parsed));
      var l := Reach(ps[0], before, us[0]);
      if l.path.Some? {
        LaterUdpFirst(ps[1..], us[1..], l.path.value);
      }
    }
  }

  /**
   * Every login that is not refused reaches its UDP hops through UDP hops only, for every tree and every requirement.
   */
  lemma {:induction false} ReachedOverUdp(h: Hop, require: Mode)
    ensures var r := LogIn(h, require); r.path.Some? ==> r.path.value != [] && UdpFirst(r.path.value)
    ensures var r := LogIn(h, require);
            r.path.Some? ==> Last(r.path.value) == if h.parsed != No then h.parsed else require
    decreases h
  {
    if !GoesThroughProxies(h) {
      ArriveUdpFirst(h.name, Asks(require, h.parsed, h.name), [], Merged(require, h.parsed));
    } else {
      var us := Assigned(h.proxies, PassedOn(require, h.parsed));
      ReachedOverUdp(h.proxies[0], us[0]);
      var first := LogIn(h.proxies[0], us[0]);
      if first.path.Some? {
        var ps, vs, before := h.proxies[1..], us[1..], first.path.value;
        LaterUdpFirst(ps, vs, before);
        var later := Later(ps, vs, before);
        if later.path.Some? {
          ArriveUdpFirst(h.name, Asked(h, require) + first.trace + later.trace, later.path.value,
              Merged(require, h.parsed));
        }
      }
    }
  }

  // ---------------------------------------------------------------- when a login is refused

  /** Proxy `i` would use UDP behind a hop that does not. */
  predicate Blocked(ps: seq<Hop>, us: seq<Mode>, last: Mode, i: nat)
    requires |ps| == |us| && i < |ps|
  {
    && !ps[i].control && Merged(us[i], ps[i].parsed) != No
    && (if i == 0 then last else Merged(us[i - 1], ps[i - 1].parsed)) == No
  }

  lemma {:induction false} LaterIff(ps: seq<Hop>, us: seq<Mode>, before: seq<Mode>)
    requires |ps| == |us| && before != []
    ensures Later(ps, us, before).path.Some? <==> forall i :: 0 <= i < |ps| ==> !Blocked(ps, us, Last(before), i)
    ensures Later(ps, us, before).path.Some? ==> Later(ps, us, before).path.value != []
    ensures Later(ps, us, before).path.Some? ==>
              Last(Later(ps, us, before).path.value) == if ps == [] then Last(before)
                  else Merged(us[|us| - 1], ps[|ps| - 1].parsed)
    decreases |ps|
  {
    if ps != [] {
      var l := Reach(ps[0], before, us[0]);
      assert l.path == None <==> Blocked(ps, us, Last(before), 0);
      if l.path.Some? {
        var path := l.path.value;
        assert Last(path) == Merged(us[0], ps[0].parsed);
        LaterIff(ps[1..], us[1..], path);
        forall i | 0 < i < |ps| ensures Blocked(ps, us, Last(before), i) <==>
            Blocked(ps[1..], us[1..], Last(path), i - 1) {
        }
        assert forall i :: 0 <= i < |ps| - 1 ==>
            (Blocked(ps[1..], us[1..], Last(path), i) <==> Blocked(ps, us, Last(before), i + 1));
      }
    }
  }

  /** A required mode reaches every proxy of the list. */
  lemma {:induction false} AssignedUnderRequirement(ps: seq<Hop>, require: Mode)
    requires require != No
    ensures AllUdp(Assigned(ps, require))
  {
    forall i | 0 <= i < |ps| ensures Assigned(ps, require)[i] != No {
      AssignedNoIff(ps, require, i);
    }
  }

  /** Among proxies that must all use UDP, none is refused and none asks. */
  lemma {:induction false} LaterRequired(ps: seq<Hop>, us: seq<Mode>, before: seq<Mode>)
    requires |ps| == |us| && AllUdp(us) && before != [] && AllUdp(before)
    ensures var r := Later(ps, us, before);
            r.path.Some? && r.path.value != [] && AllUdp(r.path.value) && CountAsks(r.trace) == 0
    decreases |ps|
  {
    if ps != [] {
      var l := Reach(ps[0], before, us[0]);
      var mode := Merged(us[0], ps[0].parsed);
      var b := if ps[0].control then [] else before;
      assert b != [] ==> b[|b| - 1] != No;
      assert l == Login([] + [Use(ps[0].name)], Some(b + [mode]));
      LaterRequired(ps[1..], us[1..], b + [mode]);
      CountJoin(l.trace, Later(ps[1..], us[1..], b + [mode]).trace);
      CountUse([], ps[0].name);
    }
  }

  /** Not refused, UDP on every hop, and so many asks. */
  ghost predicate AllOverUdp(l: Login, asks: nat) {
    l.path.Some? && l.path.value != [] && AllUdp(l.path.value) && CountAsks(l.trace) == asks
  }

  lemma {:induction false} ArriveRequired(who: Name, trace: seq<Event>, before: seq<Mode>, mode: Mode)
    requires mode != No && AllUdp(before)
    ensures AllOverUdp(Arrive(who, trace, before, mode), CountAsks(trace))
  {
    CountUse(trace, who);
  }

  lemma {:induction false} AskedRequired(h: Hop, require: Mode)
    requires GoesThroughProxies(h) && PassedOn(require, h.parsed) != No
    ensures Asked(h, require) == Asks(require, h.parsed, h.name)
  {
    ListAsksOnce(h.proxies, PassedOn(require, h.parsed));
  }

  lemma {:induction false} OnwardRequired(h: Hop, own: seq<Event>, first: seq<Event>, before: seq<Mode>, ps: seq<Hop>,
      us: seq<Mode>, mode: Mode)
    requires |ps| == |us| && AllUdp(us) && before != [] && AllUdp(before) && mode != No && CountAsks(first) == 0
    ensures AllOverUdp(Onward(h, own + first, before, ps, us, mode), CountAsks(own))
  {
    LaterRequired(ps, us, before);
    var later := Later(ps, us, before);
    CountParts(own, first, later.trace, h.name);
    ArriveRequired(h.name, own + first + later.trace, later.path.value, mode);
  }

  lemma {:induction false} CountOwn(require: Mode, mode: Mode, who: Name)
    ensures CountAsks(Asks(require, mode, who)) == |Asks(require, mode, who)|
  {}

  /**
   * A login that must use UDP, or whose hop itself asks for it, is never refused, uses UDP on every hop, and only the
   * asking hop asks for the timeout.
   */
  lemma {:induction false} RequiredLogin(h: Hop, require: Mode)
    requires PassedOn(require, h.parsed) != No
    ensures AllOverUdp(LogIn(h, require), |Asks(require, h.parsed, h.name)|)
    decreases h
  {
    var own, mode := Asks(require, h.parsed, h.name), Merged(require, h.parsed);
    CountOwn(require, h.parsed, h.name);
    if GoesThroughProxies(h) {
      var required := PassedOn(require, h.parsed);
      var us := Assigned(h.proxies, required);
      AssignedUnderRequirement(h.proxies, required);
      RequiredLogin(h.proxies[0], us[0]);
      var first := LogIn(h.proxies[0], us[0]);
      AskedRequired(h, require);
      OnwardRequired(h, own, first.trace, first.path.value, h.proxies[1..], us[1..], mode);
    } else {
      ArriveRequired(h.name, own, [], mode);
    }
  }

  lemma {:induction false} CountParts(a: seq<Event>, b: seq<Event>, c: seq<Event>, who: Name)
    ensures CountAsks(a + b + c) == CountAsks(a) + CountAsks(b) + CountAsks(c)
    ensures CountAsks(a + b + c + [Use(who)]) == CountAsks(a) + CountAsks(b) + CountAsks(c)
  {
    CountJoin(a, b);
    CountJoin(a + b, c);
    CountUse(a + b + c, who);
  }

  /** A proxy without a written mode that turns out to have one, right behind a proxy without any mode. */
  predicate Stranded(ps: seq<Hop>, i: nat) {
    0 < i && Unreached(ps, i - 1) && i < |ps| && ps[i - 1].parsed == No && ps[i].parsed != No && !ps[i].control
  }

  /**
   * The configurations in which no login is refused. With no requirement and no mode of the target's own: no proxy is
   * stranded, and the login to the first proxy is not refused either, if nothing is passed back to it.
   */
  predicate Sound(h: Hop, require: Mode)
    decreases h
  {
    || PassedOn(require, h.parsed) != No
    || !GoesThroughProxies(h)
    || (&& (forall i :: 1 <= i < |h.proxies| ==> !Stranded(h.proxies, i))
        && (Unreached(h.proxies, 0) ==> Sound(h.proxies[0], No)))
  }

  lemma {:induction false} StrandedIsBlocked(ps: seq<Hop>, last: Mode, i: nat)
    requires 1 <= i < |ps| && last == Merged(Assigned(ps, No)[0], ps[0].parsed)
    ensures Stranded(ps, i) <==> Blocked(ps[1..], Assigned(ps, No)[1..], last, i - 1)
  {
    AssignedNoIff(ps, No, i);
    AssignedNoIff(ps, No, i - 1);
  }

  /** For lists with nothing required: the later proxies go through exactly when none is stranded. */
  lemma {:induction false} NoneStranded(ps: seq<Hop>, us: seq<Mode>, before: seq<Mode>)
    requires ps != [] && us == Assigned(ps, No) && before != [] && Last(before) == Merged(us[0], ps[0].parsed)
    ensures Later(ps[1..], us[1..], before).path.Some? <==> forall i :: 1 <= i < |ps| ==> !Stranded(ps, i)
  {
    LaterIff(ps[1..], us[1..], before);
    forall i | 1 <= i < |ps| ensures Stranded(ps, i) <==> Blocked(ps[1..], us[1..], Last(before), i - 1) {
      StrandedIsBlocked(ps, Last(before), i);
    }
    forall i | 0 <= i < |ps| - 1 ensures Blocked(ps[1..], us[1..], Last(before), i) <==> Stranded(ps, i + 1) {
      StrandedIsBlocked(ps, Last(before), i + 1);
    }
  }

  /**
   * For every tree of proxies: a login is refused exactly when some proxy on the way would use UDP behind one that does
   * not.
   */
  lemma {:induction false} RefusedIff(h: Hop, require: Mode)
    ensures LogIn(h, require).path == None <==> !Sound(h, require)
    decreases h
  {
    if PassedOn(require, h.parsed) != No {
      RequiredLogin(h, require);
    } else if GoesThroughProxies(h) {
      var ps := h.proxies;
      var us := Assigned(ps, No);
      AssignedNoIff(ps, No, 0);
      if us[0] == No {
        RefusedIff(ps[0], No);
      } else {
        RequiredLogin(ps[0], us[0]);
      }
      ReachedOverUdp(ps[0], us[0]);
      var first := LogIn(ps[0], us[0]);
      if first.path.Some? {
        NoneStranded(ps, us, first.path.value);
      }
    }
  }

  // ---------------------------------------------------------------- the timeout

  /**
   * The hop whose configuration the timeout comes from; an ask, and a session that finds none, set it unless it is set.
   */
  function Settled(setter: Option<Name>, trace: seq<Event>): Option<Name>
    decreases |trace|
  {
    if trace == [] then setter
    else Settled(if setter == None then Some(trace[0].who) else setter, trace[1..])
  }

  /** How often the timeout is set. */
  function Sets(setter: Option<Name>, trace: seq<Event>): nat
    decreases |trace|
  {
    if trace == [] then 0
    else (if setter == None then 1 else 0) + Sets(if setter == None then Some(trace[0].who) else setter, trace[1..])
  }

  /** Whatever is asked, the timeout is set at most once, and the first to ask wins. */
  lemma {:induction false} SetOnce(setter: Option<Name>, trace: seq<Event>)
    ensures Sets(setter, trace) == if setter == None && trace != [] then 1 else 0
    ensures Settled(setter, trace) == if setter == None && trace != [] then Some(trace[0].who) else setter
    decreases |trace|
  {
    if trace != [] {
      SetOnce(if setter == None then Some(trace[0].who) else setter, trace[1..]);
    }
  }

  function FirstParsed(ps: seq<Hop>): Option<Name>
    decreases |ps|
  {
    if ps == [] then None else if ps[0].parsed != No then Some(ps[0].name) else FirstParsed(ps[1..])
  }

  /**
   * Whose timeout it will be: the target's own if it uses UDP; else that of the proxy nearest the target with a written
   * mode; else that of the first proxy's login; else that of the first of the other proxies to have a mode after all.
   */
  function Setter(h: Hop): Option<Name>
    decreases h
  {
    if h.parsed != No then Some(h.name)
    else if !GoesThroughProxies(h) then None
    else if !Unreached(h.proxies, 0) then Some(LastWritten(h.proxies))
    else match Setter(h.proxies[0])
      case Some(n) => Some(n)
      case None => FirstParsed(h.proxies[1..])
  }

  /** Begins with an ask of the given hop, or is empty if there is none. */
  ghost predicate OpensWith(trace: seq<Event>, setter: Option<Name>) {
    match setter case None => trace == [] case Some(n) => trace != [] && trace[0] == Ask(n)
  }

  ghost predicate AllNo(us: seq<Mode>) {
    forall i :: 0 <= i < |us| ==> us[i] == No
  }

  lemma {:induction false} LaterOpens(ps: seq<Hop>, us: seq<Mode>, before: seq<Mode>)
    requires |ps| == |us| && AllNo(us)
    ensures OpensWith(Later(ps, us, before).trace, FirstParsed(ps))
    ensures FirstParsed(ps) == None ==> Later(ps, us, before).path.Some?
    decreases |ps|
  {
    if ps != [] && ps[0].parsed == No {
      var l := Reach(ps[0], before, us[0]);
      LaterOpens(ps[1..], us[1..], l.path.value);
    }
  }

  lemma {:induction false} SilentAssigned(ps: seq<Hop>)
    requires ps != [] && Unreached(ps, 0)
    ensures AllNo(Assigned(ps, No))
  {
    forall i | 0 <= i < |ps| ensures Assigned(ps, No)[i] == No {
      AssignedNoIff(ps, No, i);
    }
  }

  /** The parts of a login whose target has no mode of its own. */
  lemma {:induction false} SilentTarget(h: Hop)
    requires GoesThroughProxies(h) && h.parsed == No
    ensures var us := Assigned(h.proxies, No);
            var first := LogIn(h.proxies[0], us[0]);
            var asked := ListAsks(h.proxies, No);
            && (first.path == None ==> LogIn(h, No) == Login(asked + first.trace, None))
            && (first.path.Some? ==>
                  var later := Later(h.proxies[1..], us[1..], first.path.value);
                  && LogIn(h, No).trace == asked + first.trace + later.trace
                  && LogIn(h, No).path == if later.path == None then None else Some(later.path.value + [No]))
  {
    assert [] + ListAsks(h.proxies, No) == ListAsks(h.proxies, No);
  }

  /**
   * In every login without a requirement from outside, the first event is an ask, by the hop whose timeout it will be;
   * so a session never finds the timeout unset.
   */
  lemma {:induction false} AskedFirst(h: Hop)
    ensures OpensWith(LogIn(h, No).trace, Setter(h))
    ensures Setter(h) == None ==> LogIn(h, No).path.Some?
    decreases h
  {
    if h.parsed == No && GoesThroughProxies(h) {
      var ps := h.proxies;
      var us := Assigned(ps, No);
      SilentTarget(h);
      ListAsksOnce(ps, No);
      if Unreached(ps, 0) {
        SilentAssigned(ps);
        AskedFirst(ps[0]);
        var first := LogIn(ps[0], No);
        assert [] + first.trace == first.trace;
        if first.path.Some? {
          LaterOpens(ps[1..], us[1..], first.path.value);
          var later := Later(ps[1..], us[1..], first.path.value);
          assert first.trace == [] ==> first.trace + later.trace == later.trace;
        }
      }
    } else if h.parsed == No {
      assert LogIn(h, No).trace == [];
    }
  }

  /** The timeout a login leaves: set at most once, by the hop that `Setter` names. */
  lemma {:induction false} TimeoutOf(h: Hop)
    ensures Settled(None, LogIn(h, No).trace) == Setter(h)
    ensures Sets(None, LogIn(h, No).trace) == if Setter(h).Some? then 1 else 0
  {
    AskedFirst(h);
    SetOnce(None, LogIn(h, No).trace);
  }

  // ---------------------------------------------------------------- repeated calls

  /** How often a login asks; every ask after the first only warns. */
  function CountAsks(trace: seq<Event>): nat
    decreases |trace|
  {
    if trace == [] then 0 else (if trace[0].Ask? then 1 else 0) + CountAsks(trace[1..])
  }

  lemma {:induction false} CountJoin(a: seq<Event>, b: seq<Event>)
    ensures CountAsks(a + b) == CountAsks(a) + CountAsks(b)
    decreases |a|
  {
    if a == [] {
      assert a + b == b;
    } else {
      assert (a + b)[1..] == a[1..] + b;
      CountJoin(a[1..], b);
    }
  }

  lemma {:induction false} CountUse(a: seq<Event>, who: Name)
    ensures CountAsks(a + [Use(who)]) == CountAsks(a)
  {
    CountJoin(a, [Use(who)]);
  }

  predicate Silent(ps: seq<Hop>) {
    forall i :: 0 <= i < |ps| ==> ps[i].parsed == No
  }

  /** At most one of these proxies has a mode, or the first that has one is not multiplexed and so ends the login. */
  predicate OneSpeaks(ps: seq<Hop>)
    decreases |ps|
  {
    ps == [] || if ps[0].parsed == No then OneSpeaks(ps[1..]) else !ps[0].control || Silent(ps[1..])
  }

  /** Modes that are passed back reach a front part of the list, and only behind hops that use UDP. */
  predicate FrontUdp(us: seq<Mode>, last: Mode) {
    && (us != [] && us[0] != No ==> last != No)
    && forall i :: 0 < i < |us| && us[i] != No ==> us[i - 1] != No
  }

  lemma {:induction false} ReachAsks(h: Hop, before: seq<Mode>, require: Mode)
    ensures CountAsks(Reach(h, before, require).trace) == if require == No && h.parsed != No then 1 else 0
  {
    CountUse(Asks(require, h.parsed, h.name), h.name);
  }

  /** The later proxies do not ask exactly when none that is not reached has a mode. */
  lemma {:induction false} LaterQuietIff(ps: seq<Hop>, us: seq<Mode>, before: seq<Mode>)
    requires |ps| == |us| && before != [] && FrontUdp(us, Last(before))
    ensures CountAsks(Later(ps, us, before).trace) == 0 <==>
            forall i :: 0 <= i < |ps| ==> us[i] != No || ps[i].parsed == No
    decreases |ps|
  {
    if ps != [] {
      var l := Reach(ps[0], before, us[0]);
      ReachAsks(ps[0], before, us[0]);
      if l.path.Some? {
        var path := l.path.value;
        assert Last(path) == Merged(us[0], ps[0].parsed);
        assert forall i :: 0 <= i < |us| - 1 ==> us[1..][i] == us[i + 1];
        LaterQuietIff(ps[1..], us[1..], path);
        CountJoin(l.trace, Later(ps[1..], us[1..], path).trace);
        assert forall i :: 0 < i < |ps| ==> ps[i] == ps[1..][i - 1] && us[i] == us[1..][i - 1];
      } else {
        assert Last(before) == No;
      }
    }
  }

  /** Behind a hop that does not use UDP, with nothing passed back. */
  lemma {:induction false} LaterOneIff(ps: seq<Hop>, us: seq<Mode>, before: seq<Mode>)
    requires |ps| == |us| && AllNo(us) && before != [] && Last(before) == No
    ensures CountAsks(Later(ps, us, before).trace) <= 1 <==> OneSpeaks(ps)
    decreases |ps|
  {
    if ps != [] {
      var l := Reach(ps[0], before, us[0]);
      ReachAsks(ps[0], before, us[0]);
      if l.path.Some? {
        var path := l.path.value;
        assert Last(path) == ps[0].parsed;
        CountJoin(l.trace, Later(ps[1..], us[1..], path).trace);
        if ps[0].parsed == No {
          LaterOneIff(ps[1..], us[1..], path);
        } else {
          LaterQuietIff(ps[1..], us[1..], path);
        }
      }
    }
  }

  /** The configurations in which a login does not ask twice. */
  predicate AsksOnce(h: Hop, require: Mode)
    decreases h
  {
    || PassedOn(require, h.parsed) != No
    || !GoesThroughProxies(h)
    || (if !Unreached(h.proxies, 0) then forall i :: 1 <= i < |h.proxies| && Unreached(h.proxies, i) ==>
        h.proxies[i].parsed == No
        else if Setter(h.proxies[0]) == None then OneSpeaks(h.proxies[1..])
        else AsksOnce(h.proxies[0], No) && (Sound(h.proxies[0], No) ==> Silent(h.proxies[1..])))
  }

  lemma {:induction false} FrontOfAssigned(ps: seq<Hop>, last: Mode)
    requires ps != [] && (Assigned(ps, No)[0] != No ==> last != No)
    ensures FrontUdp(Assigned(ps, No)[1..], last)
  {
    var us := Assigned(ps, No);
    forall i | 0 < i < |us| && us[i] != No ensures us[i - 1] != No {
      AssignedNoIff(ps, No, i);
      AssignedNoIff(ps, No, i - 1);
    }
  }

  lemma {:induction false} WrittenQuietIff(ps: seq<Hop>, us: seq<Mode>, before: seq<Mode>)
    requires ps != [] && us == Assigned(ps, No) && before != [] && Last(before) != No
    ensures CountAsks(Later(ps[1..], us[1..], before).trace) == 0
            <==> forall i :: 1 <= i < |ps| && Unreached(ps, i) ==> ps[i].parsed == No
  {
    FrontOfAssigned(ps, Last(before));
    LaterQuietIff(ps[1..], us[1..], before);
    forall i | 1 <= i < |ps| ensures us[i] == No <==> Unreached(ps, i) {
      AssignedNoIff(ps, No, i);
    }
    assert forall i :: 1 <= i < |ps| ==> ps[i] == ps[1..][i - 1] && us[i] == us[1..][i - 1];
  }

  /** Some written mode: the backward pass asks, and the first proxy does not. */
  lemma {:induction false} WrittenAsksIff(h: Hop)
    requires GoesThroughProxies(h) && h.parsed == No && !Unreached(h.proxies, 0)
    ensures CountAsks(LogIn(h, No).trace) <= 1 <==> AsksOnce(h, No)
  {
    var ps := h.proxies;
    var us := Assigned(ps, No);
    SilentTarget(h);
    ListAsksOnce(ps, No);
    AssignedNoIff(ps, No, 0);
    RequiredLogin(ps[0], us[0]);
    var asked, first := ListAsks(ps, No), LogIn(ps[0], us[0]);
    WrittenQuietIff(ps, us, first.path.value);
    CountParts(asked, first.trace, Later(ps[1..], us[1..], first.path.value).trace, h.name);
  }

  /** No written mode: the asks are those of the first proxy's login and those of the others. */
  lemma {:induction false} UnwrittenAsksIff(h: Hop)
    requires GoesThroughProxies(h) && h.parsed == No && Unreached(h.proxies, 0)
    requires CountAsks(LogIn(h.proxies[0], No).trace) <= 1 <==> AsksOnce(h.proxies[0], No)
    ensures CountAsks(LogIn(h, No).trace) <= 1 <==> AsksOnce(h, No)
  {
    var ps := h.proxies;
    var us := Assigned(ps, No);
    SilentTarget(h);
    ListAsksOnce(ps, No);
    SilentAssigned(ps);
    var first := LogIn(ps[0], No);
    assert [] + first.trace == first.trace;
    AskedFirst(ps[0]);
    RefusedIff(ps[0], No);
    ReachedOverUdp(ps[0], No);
    if first.path.Some? {
      var path := first.path.value;
      var later := Later(ps[1..], us[1..], path);
      CountJoin(first.trace, later.trace);
      if Setter(ps[0]) == None {
        NoSetterNoMode(ps[0]);
        LaterOneIff(ps[1..], us[1..], path);
      } else {
        LaterQuietIff(ps[1..], us[1..], path);
      }
    }
  }

  lemma {:induction false} NoSetterNoMode(h: Hop)
    ensures Setter(h) == None ==> h.parsed == No
  {}

  /** For every tree of proxies: exactly when a login asks for the timeout at most once. */
  lemma {:induction false} AsksOnceIff(h: Hop, require: Mode)
    ensures CountAsks(LogIn(h, require).trace) <= 1 <==> AsksOnce(h, require)
    decreases h
  {
    if PassedOn(require, h.parsed) != No {
      RequiredLogin(h, require);
    } else if !GoesThroughProxies(h) {
      ReachAsks(h, [], require);
    } else if Unreached(h.proxies, 0) {
      AsksOnceIff(h.proxies[0], No);
      UnwrittenAsksIff(h);
    } else {
      WrittenAsksIff(h);
    }
  }

  // ---------------------------------------------------------------- agreeing configurations

  /** Every proxy, and every proxy of a proxy, has the same mode as written and as parsed. */
  ghost predicate Agrees(h: Hop)
    decreases h
  {
    forall i :: 0 <= i < |h.proxies| ==> h.proxies[i].written == h.proxies[i].parsed && Agrees(h.proxies[i])
  }

  lemma {:induction false} SilentSpeaksNot(ps: seq<Hop>)
    requires Silent(ps)
    ensures OneSpeaks(ps)
    decreases |ps|
  {
    if ps != [] {
      SilentSpeaksNot(ps[1..]);
    }
  }

  lemma {:induction false} AgreementIsSound(h: Hop, require: Mode)
    requires Agrees(h)
    ensures Sound(h, require) && AsksOnce(h, require)
    decreases h
  {
    if GoesThroughProxies(h) {
      AgreementIsSound(h.proxies[0], No);
      if Unreached(h.proxies, 0) {
        assert Silent(h.proxies[1..]);
        SilentSpeaksNot(h.proxies[1..]);
      }
    }
  }

  /**
   * With agreeing modes no login is refused, UDP hops are reached through UDP hops, and the timeout is asked for once
   * at most.
   */
  lemma {:induction false} AgreementKeepsPromise(h: Hop, require: Mode)
    requires Agrees(h)
    ensures var r := LogIn(h, require); r.path.Some? && UdpFirst(r.path.value) && CountAsks(r.trace) <= 1
  {
    AgreementIsSound(h, require);
    RefusedIff(h, require);
    ReachedOverUdp(h, require);
    AsksOnceIff(h, require);
  }

  /** A mode that shows only after parsing, behind a hop without one: the login is refused. */
  lemma {:induction false} SurpriseIsRefused(plain: Name, late: Name, target: Name)
    ensures var ps := [Hop(plain, No, No, false, false, []), Hop(late, No, Kcp, false, false, [])];
            LogIn(Hop(target, No, No, false, false, ps), No).path == None
  {
    var ps := [Hop(plain, No, No, false, false, []), Hop(late, No, Kcp, false, false, [])];
    assert Stranded(ps, 1);
    RefusedIff(Hop(target, No, No, false, false, ps), No);
  }

  /** The same behind a hop that uses UDP: the timeout is asked for twice, and stays what the first ask made it. */
  lemma {:induction false} RepeatedAskIsHarmless(first: Name, late: Name, target: Name)
    ensures var ps := [Hop(first, Quic, Quic, false, false, []), Hop(late, No, Kcp, false, false, [])];
            var h := Hop(target, No, No, false, false, ps);
            && LogIn(h, No).path.Some? && UdpFirst(LogIn(h, No).path.value)
            && CountAsks(LogIn(h, No).trace) > 1 && Settled(None, LogIn(h, No).trace) == Some(first)
  {
    var ps := [Hop(first, Quic, Quic, false, false, []), Hop(late, No, Kcp, false, false, [])];
    var h := Hop(target, No, No, false, false, ps);
    assert ps[0].written != No && Unreached(ps, 1);
    assert LastWritten(ps[..1]) == first;
    RefusedIff(h, No);
    ReachedOverUdp(h, No);
    AsksOnceIff(h, No);
    TimeoutOf(h);
  }
}
