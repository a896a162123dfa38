/** Fixed rings with a reverse index: the fake-address pool, and the memory of recent direct addresses. */
module FakeIp {
  import opened Bytes
  import opened NetAddr

  // ---------------------------------------------------------------- the ring

  /** Slots filled round and round from `next`; a slot that holds `empty` is free. */
  datatype Ring<K> = Ring(slots: seq<K>, index: map<K, nat>, next: nat)

  ghost predicate InRange<K>(r: Ring<K>) {
    r.next < |r.slots| && forall k :: k in r.index ==> r.index[k] < |r.slots|
  }

  /** Index and slots are inverse to each other, the free slots aside. */
  ghost predicate Inverse<K>(r: Ring<K>, empty: K) {
    && InRange(r)
    && (forall k :: k in r.index ==> k != empty && r.slots[r.index[k]] == k)
    && (forall i :: 0 <= i < |r.slots| && r.slots[i] != empty ==> r.slots[i] in r.index && r.index[r.slots[i]] == i)
  }

  ghost function Insert<K>(r: Ring<K>, empty: K, k: K): Ring<K>
    requires InRange(r)
  {
    if k in r.index then r
    else
      var evicted := r.slots[r.next];
      Ring(r.slots[r.next := k],
           (if evicted != empty then r.index - {evicted} else r.index)[k := r.next],
           (r.next + 1) % |r.slots|)
  }

  ghost function InsertAll<K>(r: Ring<K>, empty: K, ks: seq<K>): (r': Ring<K>)
    requires InRange(r)
    ensures InRange(r') && |r'.slots| == |r.slots|
    decreases |ks|
  {
    if ks == [] then r else InsertAll(Insert(r, empty, ks[0]), empty, ks[1..])
  }

  /** How many of the insertions find a new key and so use up a slot. */
  ghost function Allocations<K>(r: Ring<K>, empty: K, ks: seq<K>): nat
    requires InRange(r)
    decreases |ks|
  {
    if ks == [] then 0
    else (if ks[0] in r.index then 0 else 1) + Allocations(Insert(r, empty, ks[0]), empty, ks[1..])
  }

  /** How many further allocations a key survives: the slots from `next` up to its own. */
  ghost function Lives<K>(r: Ring<K>, k: K): nat
    requires InRange(r) && k in r.index
  {
    if r.index[k] >= r.next then r.index[k] - r.next else |r.slots| + r.index[k] - r.next
  }

  lemma {:induction false} Wraps(i: nat, n: nat)
    requires i < n
    ensures (i + 1) % n == if i + 1 == n then 0 else i + 1
  {}

  lemma {:induction false} InsertKeepsInverse<K>(r: Ring<K>, empty: K, k: K)
    requires Inverse(r, empty) && k != empty
    ensures Inverse(Insert(r, empty, k), empty)
  {}

  lemma {:induction false} RunKeepsInverse<K>(r: Ring<K>, empty: K, ks: seq<K>)
    requires Inverse(r, empty) && empty !in ks
    ensures Inverse(InsertAll(r, empty, ks), empty)
    decreases |ks|
  {
    if ks != [] {
      InsertKeepsInverse(r, empty, ks[0]);
      RunKeepsInverse(Insert(r, empty, ks[0]), empty, ks[1..]);
    }
  }

  /** A key just inserted into a ring outlives all but a full round of allocations. */
  lemma {:induction false} NewLives<K>(r: Ring<K>, empty: K, k: K)
    requires Inverse(r, empty) && k != empty && k !in r.index
    ensures Lives(Insert(r, empty, k), k) == |r.slots| - 1
  {
    Wraps(r.next, |r.slots|);
  }

  /** One insertion of another key: an allocation costs one life, the last of which evicts; a known key costs none. */
  lemma {:induction false} LifeStep<K>(r: Ring<K>, empty: K, k: K, other: K)
    requires Inverse(r, empty) && k in r.index && other != empty && other != k
    ensures var r' := Insert(r, empty, other);
            if other in r.index then r' == r
            else if Lives(r, k) == 0 then k !in r'.index
            else k in r'.index && r'.index[k] == r.index[k] && Lives(r', k) == Lives(r, k) - 1
  {
    if other !in r.index {
      var r' := Insert(r, empty, other);
      Wraps(r.next, |r.slots|);
      assert |r'.slots| == |r.slots|;
      if Lives(r, k) == 0 {
        assert r.slots[r.next] == k;
      } else {
        assert r.slots[r.next] != k;
        assert r'.index[k] == r.index[k];
      }
    }
  }

  lemma {:induction false} GoneStaysGone<K>(r: Ring<K>, empty: K, k: K, others: seq<K>)
    requires Inverse(r, empty) && k !in r.index && empty !in others && k !in others
    ensures k !in InsertAll(r, empty, others).index
    decreases |others|
  {
    if others != [] {
      InsertKeepsInverse(r, empty, others[0]);
      GoneStaysGone(Insert(r, empty, others[0]), empty, k, others[1..]);
    }
  }

  /**
   * A key keeps its slot through any run of keys while the allocations do not exceed its lives; once they do, and
   * unless it comes again itself, it is gone.
   */
  lemma {:induction false} RetainedIff<K>(r: Ring<K>, empty: K, k: K, ks: seq<K>)
    requires Inverse(r, empty) && k in r.index && empty !in ks
    ensures var r' := InsertAll(r, empty, ks);
            Allocations(r, empty, ks) <= Lives(r, k) ==> k in r'.index && r'.index[k] == r.index[k]
    ensures k !in ks ==> (k in InsertAll(r, empty, ks).index <==> Allocations(r, empty, ks) <= Lives(r, k))
    decreases |ks|
  {
    if ks != [] {
      var o := ks[0];
      var r1 := Insert(r, empty, o);
      InsertKeepsInverse(r, empty, o);
      if o != k {
        LifeStep(r, empty, k, o);
      }
      if k in r1.index {
        RetainedIff(r1, empty, k, ks[1..]);
      } else if k !in ks {
        GoneStaysGone(r1, empty, k, ks[1..]);
      }
    }
  }

  lemma {:induction false} FirstOfMany<K>(r: Ring<K>, empty: K, ks: seq<K>, m: nat)
    requires InRange(r) && m < |ks|
    ensures InsertAll(r, empty, ks[..m + 1]) == InsertAll(Insert(r, empty, ks[0]), empty, ks[1..][..m])
    ensures Allocations(r, empty, ks[..m + 1])
         == (if ks[0] in r.index then 0 else 1) + Allocations(Insert(r, empty, ks[0]), empty, ks[1..][..m])
  {
    assert ks[..m + 1][1..] == ks[1..][..m] && ks[..m + 1][0] == ks[0];
  }

  lemma {:induction false} FewerBefore<K>(r: Ring<K>, empty: K, ks: seq<K>, m: nat)
    requires InRange(r) && m <= |ks|
    ensures Allocations(r, empty, ks[..m]) <= Allocations(r, empty, ks)
    decreases |ks|
  {
    if m > 0 {
      FirstOfMany(r, empty, ks, m - 1);
      FewerBefore(Insert(r, empty, ks[0]), empty, ks[1..], m - 1);
    }
  }

  /** With more allocations than lives there is a moment at which the key is gone. */
  lemma {:induction false} GoneAt<K>(r: Ring<K>, empty: K, k: K, ks: seq<K>) returns (m: nat)
    requires Inverse(r, empty) && k in r.index && empty !in ks && Allocations(r, empty, ks) > Lives(r, k)
    ensures m <= |ks| && k !in InsertAll(r, empty, ks[..m]).index
    decreases |ks|
  {
    var r1 := Insert(r, empty, ks[0]);
    InsertKeepsInverse(r, empty, ks[0]);
    if ks[0] != k {
      LifeStep(r, empty, k, ks[0]);
    }
    var n := 0;
    if k in r1.index {
      n := GoneAt(r1, empty, k, ks[1..]);
    } else {
      assert ks[1..][..0] == [];
    }
    FirstOfMany(r, empty, ks, n);
    m := n + 1;
  }

  /** A key is there at every moment of a run exactly if the allocations of the run do not exceed its lives. */
  lemma {:induction false} NeverGoneIff<K>(r: Ring<K>, empty: K, k: K, ks: seq<K>)
    requires Inverse(r, empty) && k in r.index && empty !in ks
    ensures (forall m :: 0 <= m <= |ks| ==> k in InsertAll(r, empty, ks[..m]).index)
            <==> Allocations(r, empty, ks) <= Lives(r, k)
  {
    if Allocations(r, empty, ks) <= Lives(r, k) {
      forall m | 0 <= m <= |ks| ensures k in InsertAll(r, empty, ks[..m]).index {
        FewerBefore(r, empty, ks, m);
        RetainedIff(r, empty, k, ks[..m]);
      }
    } else {
      var m := GoneAt(r, empty, k, ks);
    }
  }

  // ---------------------------------------------------------------- fake addresses

  const CAPACITY := 8192
  const PREFIX := 0xC612_0000           // 198.18.0.0
  const PREFIX_SIZE := 0x2_0000         // a /15
  const BASE := PREFIX + 2

  function ToQuad(v: nat): (q: Quad)
    requires v < 0x1_0000_0000
    ensures FromQuad(q) == v
  {
    var hi, lo := v / 0x1_0000, v % 0x1_0000;
    assert hi / 0x100 * 0x100 + hi % 0x100 == hi && lo / 0x100 * 0x100 + lo % 0x100 == lo;
    [hi / 0x100, hi % 0x100, lo / 0x100, lo % 0x100]
  }

  function FromQuad(q: Quad): nat {
    (q[0] as int) * 0x100_0000 + (q[1] as int) * 0x1_0000 + (q[2] as int) * 0x100 + q[3]
  }

  function SlotAddr(idx: nat): Addr
    requires idx < CAPACITY
  {
    V4(ToQuad(BASE + idx))
  }

  /** The slot an address stands for, if it is one of the pool's. */
  function SlotOf(ip: Addr): Option<nat> {
    if ip.V4? && BASE <= FromQuad(ip.quad) < BASE + CAPACITY then Some(FromQuad(ip.quad) - BASE) else None
  }

  lemma {:induction false} AddressOfSlot(idx: nat)
    requires idx < CAPACITY
    ensures SlotOf(SlotAddr(idx)) == Some(idx)
    ensures PREFIX <= FromQuad(SlotAddr(idx).quad) < PREFIX + PREFIX_SIZE
  {}

  /** The pool's addresses are those from 198.18.0.2 on, one after the other. */
  lemma {:induction false} SlotAddress(idx: nat)
    requires idx < CAPACITY
    ensures var q := SlotAddr(idx).quad;
            q[0] == 198 && q[1] == 18 && (q[2] as int) * 256 + q[3] == 2 + idx
  {
    var q := SlotAddr(idx).quad;
    assert FromQuad(q) == 0xC612_0002 + idx;
  }

  class FakeIPPool {
    var next: nat
    var byHost: map<bytes, nat>
    const byIdx: array<bytes>

    ghost function AsRing(): Ring<bytes>
      reads this, byIdx
    {
      Ring(byIdx[..], byHost, next)
    }

    ghost predicate Valid()
      reads this, byIdx
    {
      byIdx.Length == CAPACITY && InRange(AsRing())
    }

    constructor ()
      ensures Valid() && fresh(byIdx) && Inverse(AsRing(), [])
      ensures AsRing() == Ring(seq(CAPACITY, _ => []), map[], 0)
    {
      next := 0;
      byHost := map[];
      byIdx := new bytes[CAPACITY](_ => []);
    }

    method Assign(host: bytes) returns (ip: Addr)
      requires Valid()
      modifies this, byIdx
      ensures Valid()
      ensures AsRing() == Insert(old(AsRing()), [], host)
      ensures host in byHost && ip == SlotAddr(byHost[host])
    {
      if host in byHost {
        return SlotAddr(byHost[host]);
      }
      var idx := next;
      next := (next + 1) % CAPACITY;
      var evicted := byIdx[idx];
      if evicted != [] {
        byHost := byHost - {evicted};
      }
      byIdx[idx] := host;
      byHost := byHost[host := idx];
      ip := SlotAddr(idx);
    }

    method Host(ip: Addr) returns (r: Option<bytes>)
      requires Valid()
      ensures r == HostIn(AsRing(), ip)
    {
      var slot := SlotOf(ip);
      if slot == None {
        return None;
      }
      var h := byIdx[slot.value];
      r := if h == [] then None else Some(h);
    }
  }

  ghost function HostIn(r: Ring<bytes>, ip: Addr): Option<bytes>
    requires |r.slots| == CAPACITY
  {
    var slot := SlotOf(ip);
    if slot == None || r.slots[slot.value] == [] then None else Some(r.slots[slot.value])
  }

  /**
   * Over every run of assignments of non-empty names: index and slots stay inverse; live names have distinct
   * addresses, all in 198.18.0.0/15, and each address resolves to its name.
   */
  lemma {:induction false} PoolInvariant(r: Ring<bytes>, names: seq<bytes>, a: bytes, b: bytes)
    requires |r.slots| == CAPACITY && Inverse(r, []) && [] !in names
    ensures var p := InsertAll(r, [], names);
            && Inverse(p, [])
            && (a in p.index ==> HostIn(p, SlotAddr(p.index[a])) == Some(a))
            && (a in p.index ==> PREFIX <= FromQuad(SlotAddr(p.index[a]).quad) < PREFIX + PREFIX_SIZE)
            && (a in p.index && b in p.index && a != b ==> SlotAddr(p.index[a]) != SlotAddr(p.index[b]))
  {
    RunKeepsInverse(r, [], names);
    var p := InsertAll(r, [], names);
    if a in p.index {
      AddressOfSlot(p.index[a]);
      if b in p.index {
        AddressOfSlot(p.index[b]);
      }
    }
  }

  /** The address of a live name resolves to it exactly as long as the name is in the index. */
  lemma {:induction false} ResolvesIffKept(r: Ring<bytes>, name: bytes, names: seq<bytes>)
    requires |r.slots| == CAPACITY && Inverse(r, []) && name in r.index && [] !in names
    ensures var p := InsertAll(r, [], names);
            HostIn(p, SlotAddr(r.index[name])) == Some(name) <==> name in p.index && p.index[name] == r.index[name]
  {
    RunKeepsInverse(r, [], names);
    AddressOfSlot(r.index[name]);
  }

  /**
   * A newly assigned name still resolves after any further names, of which at most 8191 were new; after more, and
   * unless it was asked for again itself, it does not.
   */
  lemma {:induction false} StillResolvesIff(r: Ring<bytes>, name: bytes, names: seq<bytes>)
    requires |r.slots| == CAPACITY && Inverse(r, []) && name != [] && name !in r.index && [] !in names
    ensures var r1 := Insert(r, [], name);
            Allocations(r1, [], names) <= 8191 ==>
              HostIn(InsertAll(r1, [], names), SlotAddr(r1.index[name])) == Some(name)
    ensures var r1 := Insert(r, [], name);
            name !in names && HostIn(InsertAll(r1, [], names), SlotAddr(r1.index[name])) == Some(name) ==>
              Allocations(r1, [], names) <= 8191
  {
    var r1 := Insert(r, [], name);
    InsertKeepsInverse(r, [], name);
    NewLives(r, [], name);
    RetainedIff(r1, [], name, names);
    ResolvesIffKept(r1, name, names);
  }

  /** It resolves at every moment of a run, names asked for again included, exactly if at most 8191 names were new. */
  lemma {:induction false} AlwaysResolvesIff(r: Ring<bytes>, name: bytes, names: seq<bytes>)
    requires |r.slots| == CAPACITY && Inverse(r, []) && name != [] && name !in r.index && [] !in names
    ensures var r1 := Insert(r, [], name);
            (forall m :: 0 <= m <= |names| ==>
               HostIn(InsertAll(r1, [], names[..m]), SlotAddr(r1.index[name])) == Some(name))
            <==> Allocations(r1, [], names) <= 8191
  {
    var r1 := Insert(r, [], name);
    InsertKeepsInverse(r, [], name);
    NewLives(r, [], name);
    if Allocations(r1, [], names) <= 8191 {
      forall m | 0 <= m <= |names|
        ensures HostIn(InsertAll(r1, [], names[..m]), SlotAddr(r1.index[name])) == Some(name)
      {
        FewerBefore(r1, [], names, m);
        StillResolvesIff(r, name, names[..m]);
      }
    } else {
      var m := GoneAt(r1, [], name, names);
      ResolvesIffKept(r1, name, names[..m]);
    }
  }

  /** The address handed out for a new name resolves to it exactly when the name is not empty. */
  lemma {:induction false} ResolvesIffNamed(r: Ring<bytes>, name: bytes)
    requires |r.slots| == CAPACITY && Inverse(r, []) && name !in r.index
    ensures HostIn(Insert(r, [], name), SlotAddr(Insert(r, [], name).index[name])) == Some(name) <==> name != []
  {
    AddressOfSlot(r.next);
  }

  // ---------------------------------------------------------------- recent direct addresses

  class RecentIPs {
    var next: nat
    var slotOf: map<Option<Addr>, nat>
    const order: array<Option<Addr>>

    ghost function AsRing(): Ring<Option<Addr>>
      reads this, order
    {
      Ring(order[..], slotOf, next)
    }

    ghost predicate Valid()
      reads this, order
    {
      Inverse(AsRing(), None)
    }

    constructor (capacity: nat)
      requires capacity > 0
      ensures Valid() && fresh(order) && AsRing() == Ring(seq(capacity, _ => None), map[], 0)
    {
      next := 0;
      slotOf := map[];
      order := new Option<Addr>[capacity](_ => None);
    }

    method Add(addr: Addr)
      requires Valid()
      modifies this, order
      ensures Valid() && AsRing() == Insert(old(AsRing()), None, Some(Unmap(addr)))
    {
      var ip := Some(Unmap(addr));
      InsertKeepsInverse(AsRing(), None, ip);
      if ip in slotOf {
        return;
      }
      var evicted := order[next];
      if evicted != None {
        slotOf := slotOf - {evicted};
      }
      order[next] := ip;
      slotOf := slotOf[ip := next];
      next := (next + 1) % order.Length;
    }

    /** Whether the address, in its canonical form, is in one of the slots. */
    method Contains(addr: Addr) returns (r: bool)
      requires Valid()
      ensures r <==> Some(Unmap(addr)) in order[..]
    {
      r := Some(Unmap(addr)) in slotOf;
      InSlots(AsRing(), None, Some(Unmap(addr)));
    }
  }

  lemma {:induction false} InSlots<K>(r: Ring<K>, empty: K, k: K)
    requires Inverse(r, empty) && k != empty
    ensures k in r.slots <==> k in r.index
  {
    if k in r.slots {
      var i :| 0 <= i < |r.slots| && r.slots[i] == k;
    }
  }

  /**
   * An address just added is remembered through any others while fewer of them are new than there are slots; after
   * more, and unless it was added again itself, it is not.
   */
  lemma {:induction false} RememberedIff(r: Ring<Option<Addr>>, addr: Addr, ks: seq<Option<Addr>>)
    requires Inverse(r, None) && Some(Unmap(addr)) !in r.index && None !in ks
    ensures var r1 := Insert(r, None, Some(Unmap(addr)));
            Allocations(r1, None, ks) < |r.slots| ==> Some(Unmap(addr)) in InsertAll(r1, None, ks).slots
    ensures var r1 := Insert(r, None, Some(Unmap(addr)));
            Some(Unmap(addr)) !in ks && Some(Unmap(addr)) in InsertAll(r1, None, ks).slots ==>
              Allocations(r1, None, ks) < |r.slots|
  {
    var k := Some(Unmap(addr));
    var r1 := Insert(r, None, k);
    InsertKeepsInverse(r, None, k);
    NewLives(r, None, k);
    RetainedIff(r1, None, k, ks);
    RunKeepsInverse(r1, None, ks);
    InSlots(InsertAll(r1, None, ks), None, k);
  }

  /** It is remembered at every moment of a run exactly if fewer addresses of the run are new than there are slots. */
  lemma {:induction false} AlwaysRememberedIff(r: Ring<Option<Addr>>, addr: Addr, ks: seq<Option<Addr>>)
    requires Inverse(r, None) && Some(Unmap(addr)) !in r.index && None !in ks
    ensures var r1 := Insert(r, None, Some(Unmap(addr)));
            (forall m :: 0 <= m <= |ks| ==> Some(Unmap(addr)) in InsertAll(r1, None, ks[..m]).index)
            <==> Allocations(r1, None, ks) < |r.slots|
  {
    var k := Some(Unmap(addr));
    InsertKeepsInverse(r, None, k);
    NewLives(r, None, k);
    NeverGoneIff(Insert(r, None, k), None, k, ks);
  }
}
