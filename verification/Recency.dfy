/**
 * Least-recently-used tables. The DNS name cache and the certificate cache both keep a map from keys to list
 * elements and a list in order of use; here that pair is one class, specified by a bounded recency list, and
 * the bounded list by a statement about the history of uses alone.
 */
module Recency {
  import opened Bytes

  datatype Entry<K, V> = Entry(key: K, value: V)

  // ---------------------------------------------------------------- recency lists

  ghost predicate Distinct<K, V>(es: seq<Entry<K, V>>) {
    forall i, j :: 0 <= i < j < |es| ==> es[i].key != es[j].key
  }

  ghost function Keys<K, V>(es: seq<Entry<K, V>>): set<K> {
    set i | 0 <= i < |es| :: es[i].key
  }

  /** Position of a key, or the length of the list when it is absent. */
  function IndexOf<K(==), V>(es: seq<Entry<K, V>>, k: K): (i: nat)
    ensures i <= |es| && (i < |es| ==> es[i].key == k)
    ensures forall j :: 0 <= j < i ==> es[j].key != k
  {
    if es == [] then 0
    else if es[0].key == k then 0
    else
      var i := IndexOf(es[1..], k);
      assert forall j :: 0 < j < i + 1 ==> es[j] == es[1..][j - 1];
      i + 1
  }

  function RemoveAt<T>(s: seq<T>, i: nat): seq<T> {
    if i < |s| then s[..i] + s[i + 1..] else s
  }

  /** Use of a key: its entry moves, or is pushed, to the front. */
  function Use<K(==), V>(es: seq<Entry<K, V>>, k: K, v: V): seq<Entry<K, V>> {
    [Entry(k, v)] + RemoveAt(es, IndexOf(es, k))
  }

  function Take<T>(s: seq<T>, cap: nat): seq<T> {
    if |s| <= cap then s else s[..cap]
  }

  lemma {:induction false} TakeLess<T>(s: seq<T>, n: nat)
    requires 0 < n <= |s|
    ensures Take(s, n)[..n - 1] == Take(s, n - 1)
  {}

  lemma {:induction false} IndexUnique<K, V>(es: seq<Entry<K, V>>, k: K, i: nat)
    requires i < |es| && es[i].key == k && forall j :: 0 <= j < i ==> es[j].key != k
    ensures IndexOf(es, k) == i
  {}

  lemma {:induction false} UseDistinct<K, V>(es: seq<Entry<K, V>>, k: K, v: V)
    requires Distinct(es)
    ensures Distinct(Use(es, k, v)) && Keys(Use(es, k, v)) == Keys(es) + {k}
  {
    var n := IndexOf(es, k);
    var r := RemoveAt(es, n);
    var u := Use(es, k, v);
    assert forall i :: 0 <= i < |r| ==> r[i] == if i < n then es[i] else es[i + 1];
    assert forall i :: 0 < i < |u| ==> u[i] == r[i - 1];
    forall x | x in Keys(es) ensures x in Keys(u) {
      var i :| 0 <= i < |es| && es[i].key == x;
      if i < n {
        assert u[i + 1].key == x;
      } else if i > n {
        assert u[i].key == x;
      } else {
        assert u[0].key == x;
      }
    }
    assert u[0].key == k;
  }

  /** Bounding the list after every use keeps exactly the front of the unbounded list. */
  lemma {:induction false} BoundedUse<K, V>(es: seq<Entry<K, V>>, k: K, v: V, cap: nat)
    requires cap > 0 && Distinct(es)
    ensures Take(Use(Take(es, cap), k, v), cap) == Take(Use(es, k, v), cap)
  {
    var front, e := Take(es, cap), Entry(k, v);
    var n := IndexOf(es, k);
    if n < |front| {
      IndexUnique(front, k, n);
    } else {
      assert IndexOf(front, k) == |front|;
    }
    TakeAfterMove(es, n, e, cap);
  }

  lemma {:induction false} TakeAfterMove<T>(s: seq<T>, n: nat, e: T, cap: nat)
    requires cap > 0 && n <= |s|
    ensures var m := if n < cap then n else |Take(s, cap)|;
            Take([e] + RemoveAt(Take(s, cap), m), cap) == Take([e] + RemoveAt(s, n), cap)
  {
    if |s| > cap {
      if n < cap {
        CutBehind(s, n, e, cap);
      } else {
        CutBefore(s, n, e, cap);
      }
    }
  }

  lemma {:induction false} CutBehind<T>(s: seq<T>, n: nat, e: T, cap: nat)
    requires n < cap < |s|
    ensures ([e] + RemoveAt(s, n))[..cap] == [e] + RemoveAt(s[..cap], n)
  {
    assert ([e] + RemoveAt(s, n))[..cap] == [e] + (s[..n] + s[n + 1..cap]);
    assert RemoveAt(s[..cap], n) == s[..n] + s[n + 1..cap];
  }

  lemma {:induction false} CutBefore<T>(s: seq<T>, n: nat, e: T, cap: nat)
    requires 0 < cap <= n <= |s| && cap < |s|
    ensures ([e] + RemoveAt(s, n))[..cap] == ([e] + s[..cap])[..cap]
  {
    assert ([e] + RemoveAt(s, n))[..cap] == [e] + s[..cap - 1];
  }

  // ---------------------------------------------------------------- histories

  datatype Op<K, V> = Put(key: K, value: V) | Lookup(key: K)

  /** The keys used after the last use of `k`. */
  ghost function Since<K>(uses: seq<K>, k: K): set<K> {
    if uses == [] then {}
    else
      var last := uses[|uses| - 1];
      if last == k then {} else {last} + Since(uses[..|uses| - 1], k)
  }

  /** `k` is among the `cap` most recently used keys: fewer than `cap` others were used after it. */
  ghost predicate AmongRecent<K>(uses: seq<K>, k: K, cap: nat) {
    k in uses && |Since(uses, k)| < cap
  }

  /** The uses in a history: every put, and every lookup of a key that is still among the most recent. */
  ghost function UsesOf<K, V>(ops: seq<Op<K, V>>, cap: nat): seq<K> {
    if ops == [] then []
    else
      var before := UsesOf(ops[..|ops| - 1], cap);
      match ops[|ops| - 1]
      case Put(k, _) => before + [k]
      case Lookup(k) => if AmongRecent(before, k, cap) then before + [k] else before
  }

  ghost function LastPut<K, V>(ops: seq<Op<K, V>>, k: K): Option<V> {
    if ops == [] then None
    else match ops[|ops| - 1]
      case Put(x, v) => if x == k then Some(v) else LastPut(ops[..|ops| - 1], k)
      case Lookup(_) => LastPut(ops[..|ops| - 1], k)
  }

  /** One operation on a bounded table. */
  ghost function Apply<K, V>(es: seq<Entry<K, V>>, op: Op<K, V>, cap: nat): seq<Entry<K, V>> {
    match op
    case Put(k, v) => Take(Use(es, k, v), cap)
    case Lookup(k) => if IndexOf(es, k) < |es| then Use(es, k, es[IndexOf(es, k)].value) else es
  }

  ghost function RunOps<K, V>(ops: seq<Op<K, V>>, cap: nat): seq<Entry<K, V>> {
    if ops == [] then [] else Apply(RunOps(ops[..|ops| - 1], cap), ops[|ops| - 1], cap)
  }

  /** The unbounded list behind the table: nothing is ever dropped, but only recent keys answer lookups. */
  ghost function Unbounded<K, V>(ops: seq<Op<K, V>>, cap: nat): seq<Entry<K, V>> {
    if ops == [] then []
    else
      var es := Unbounded(ops[..|ops| - 1], cap);
      match ops[|ops| - 1]
      case Put(k, v) => Use(es, k, v)
      case Lookup(k) =>
        var i := IndexOf(es, k);
        if i < |es| && i < cap then Use(es, k, es[i].value) else es
  }

  lemma {:induction false} TableIsFront<K, V>(ops: seq<Op<K, V>>, cap: nat)
    requires cap > 0
    ensures Distinct(Unbounded(ops, cap))
    ensures RunOps(ops, cap) == Take(Unbounded(ops, cap), cap)
  {
    if ops != [] {
      var before := ops[..|ops| - 1];
      TableIsFront(before, cap);
      var es := Unbounded(before, cap);
      var front := Take(es, cap);
      match ops[|ops| - 1] {
        case Put(k, v) =>
          UseDistinct(es, k, v);
          BoundedUse(es, k, v, cap);
        case Lookup(k) =>
          var i := IndexOf(es, k);
          if i < |front| {
            IndexUnique(front, k, i);
            UseDistinct(es, k, es[i].value);
            BoundedUse(es, k, es[i].value, cap);
          } else {
            assert IndexOf(front, k) == |front|;
          }
      }
    }
  }

  ghost function Elements<K>(uses: seq<K>): set<K> {
    set k | k in uses
  }

  /** The keys ahead of an entry are those used after it. */
  ghost predicate Ahead<K, V>(es: seq<Entry<K, V>>, uses: seq<K>, i: nat)
    requires i < |es|
  {
    Since(uses, es[i].key) == Keys(es[..i])
  }

  /** The unbounded list says the same as the uses: the keys used, in the order of their last use. */
  ghost predicate Ordered<K, V>(es: seq<Entry<K, V>>, uses: seq<K>) {
    && Distinct(es)
    && Keys(es) == Elements(uses)
    && forall i :: 0 <= i < |es| ==> Ahead(es, uses, i)
  }

  lemma {:induction false} SinceAppend<K>(uses: seq<K>, last: K, k: K)
    ensures Since(uses + [last], k) == if last == k then {} else {last} + Since(uses, k)
  {
    assert (uses + [last])[..|uses|] == uses;
  }

  lemma {:induction false} UseAhead<K, V>(es: seq<Entry<K, V>>, uses: seq<K>, k: K, v: V, i: nat)
    requires Ordered(es, uses) && i < |Use(es, k, v)|
    ensures Ahead(Use(es, k, v), uses + [k], i)
  {
    var n := IndexOf(es, k);
    var u := Use(es, k, v);
    SinceAppend(uses, k, u[i].key);
    if i > 0 {
      var was := if i - 1 < n then i - 1 else i;
      RemovedAt(es, n, i - 1);
      FrontKeys(es, k, v, i, was);
      assert Ahead(es, uses, was);
    } else {
      assert u[..0] == [];
    }
  }

  lemma {:induction false} RemovedAt<K, V>(es: seq<Entry<K, V>>, n: nat, j: nat)
    requires j < |RemoveAt(es, n)|
    ensures RemoveAt(es, n)[j] == es[if j < n then j else j + 1]
  {}

  lemma {:induction false} UseOrdered<K, V>(es: seq<Entry<K, V>>, uses: seq<K>, k: K, v: V)
    requires Ordered(es, uses)
    ensures Ordered(Use(es, k, v), uses + [k])
  {
    UseDistinct(es, k, v);
    assert Elements(uses + [k]) == Elements(uses) + {k};
    forall i | 0 <= i < |Use(es, k, v)| ensures Ahead(Use(es, k, v), uses + [k], i) {
      UseAhead(es, uses, k, v, i);
    }
  }

  /** What stands ahead of an entry after a use: the key used, and what stood ahead of it before. */
  lemma {:induction false} FrontKeys<K, V>(es: seq<Entry<K, V>>, k: K, v: V, i: nat, was: nat)
    requires Distinct(es) && was < |es| && es[was].key != k
    requires was == (if i - 1 < IndexOf(es, k) then i - 1 else i) && 0 < i < |Use(es, k, v)|
    ensures Keys(Use(es, k, v)[..i]) == Keys(es[..was]) + {k}
  {
    var n := IndexOf(es, k);
    var ahead := es[..was];
    if n < was {
      IndexUnique(ahead, k, n);
    } else {
      assert IndexOf(ahead, k) == |ahead|;
    }
    CutAfterMove(es, n, Entry(k, v), was, i);
    UseDistinct(ahead, k, v);
  }

  /** Moving an entry and then cutting the list is cutting it first, one entry shorter if the moved one is outside. */
  lemma {:induction false} CutAfterMove<T>(s: seq<T>, n: nat, e: T, was: nat, i: nat)
    requires was < |s| && n != was && i == (if n < was then was else was + 1)
    ensures |[e] + RemoveAt(s, n)| >= i
    ensures ([e] + RemoveAt(s, n))[..i] == [e] + RemoveAt(s[..was], if n < was then n else was)
  {
    if n < was {
      assert RemoveAt(s[..was], n) == s[..n] + s[n + 1..was] == RemoveAt(s, n)[..i - 1];
    } else {
      assert RemoveAt(s, n)[..i - 1] == s[..was];
    }
  }

  lemma {:induction false} KeysSize<K, V>(es: seq<Entry<K, V>>)
    requires Distinct(es)
    ensures |Keys(es)| == |es|
  {
    if es != [] {
      var m := |es| - 1;
      KeysSize(es[..m]);
      assert Keys(es) == Keys(es[..m]) + {es[m].key} by {
        forall x | x in Keys(es) ensures x in Keys(es[..m]) + {es[m].key} {
          var i :| 0 <= i < |es| && es[i].key == x;
          if i < m {
            assert es[..m][i].key == x;
          }
        }
        forall x | x in Keys(es[..m]) ensures x in Keys(es) {
          var i :| 0 <= i < m && es[..m][i].key == x;
          assert es[i].key == x;
        }
      }
    }
  }

  lemma {:induction false} RecentIsFront<K, V>(es: seq<Entry<K, V>>, uses: seq<K>, k: K, cap: nat)
    requires Ordered(es, uses)
    ensures AmongRecent(uses, k, cap) <==> IndexOf(es, k) < |es| && IndexOf(es, k) < cap
  {
    var i := IndexOf(es, k);
    assert k in Elements(uses) <==> k in uses;
    if i < |es| {
      assert k in Keys(es) && Ahead(es, uses, i);
      KeysSize(es[..i]);
    }
  }

  lemma {:induction false} UnboundedOrdered<K, V>(ops: seq<Op<K, V>>, cap: nat)
    ensures Ordered(Unbounded(ops, cap), UsesOf(ops, cap))
  {
    if ops != [] {
      var before := ops[..|ops| - 1];
      var es, uses := Unbounded(before, cap), UsesOf(before, cap);
      UnboundedOrdered(before, cap);
      match ops[|ops| - 1] {
        case Put(k, v) => UseOrdered(es, uses, k, v);
        case Lookup(k) =>
          RecentIsFront(es, uses, k, cap);
          if AmongRecent(uses, k, cap) {
            UseOrdered(es, uses, k, es[IndexOf(es, k)].value);
          }
      }
    }
  }

  lemma {:induction false} UnboundedValues<K, V>(ops: seq<Op<K, V>>, cap: nat, i: nat)
    requires i < |Unbounded(ops, cap)|
    ensures LastPut(ops, Unbounded(ops, cap)[i].key) == Some(Unbounded(ops, cap)[i].value)
  {
    if ops != [] {
      var before := ops[..|ops| - 1];
      var es := Unbounded(before, cap);
      forall j | 0 <= j < |es| ensures LastPut(before, es[j].key) == Some(es[j].value) {
        UnboundedValues(before, cap, j);
      }
      UnboundedOrdered(before, cap);
      match ops[|ops| - 1] {
        case Put(k, v) =>
          if i > 0 {
            var n := IndexOf(es, k);
            assert Unbounded(ops, cap)[i] == RemoveAt(es, n)[i - 1];
            assert RemoveAt(es, n)[i - 1] == es[if i - 1 < n then i - 1 else i];
          }
        case Lookup(k) =>
          var n := IndexOf(es, k);
          if i > 0 && n < |es| && n < cap {
            assert Unbounded(ops, cap)[i] == RemoveAt(es, n)[i - 1];
          }
      }
    }
  }

  /**
   * A bounded table answers a lookup exactly for the keys among the `cap` most recently used, and answers
   * with the value last put for that key; this speaks of the history of operations and of nothing else.
   */
  lemma {:induction false} TableAnswers<K, V>(ops: seq<Op<K, V>>, cap: nat, k: K)
    requires cap > 0
    ensures var es := RunOps(ops, cap);
            && (IndexOf(es, k) < |es| <==> AmongRecent(UsesOf(ops, cap), k, cap))
            && (IndexOf(es, k) < |es| ==> LastPut(ops, k) == Some(es[IndexOf(es, k)].value))
            && Distinct(es) && |es| <= cap
  {
    TableIsFront(ops, cap);
    UnboundedOrdered(ops, cap);
    var all := Unbounded(ops, cap);
    var es := RunOps(ops, cap);
    RecentIsFront(all, UsesOf(ops, cap), k, cap);
    var i := IndexOf(all, k);
    if i < |es| {
      IndexUnique(es, k, i);
      UnboundedValues(ops, cap, i);
    } else {
      assert IndexOf(es, k) == |es|;
    }
  }

  // ---------------------------------------------------------------- the table

  class Element<K, V> {
    const key: K
    var value: V

    constructor (key: K, value: V)
      ensures this.key == key && this.value == value
    {
      this.key := key;
      this.value := value;
    }
  }

  class LruTable<K(==), V> {
    const cap: nat
    var items: map<K, Element<K, V>>
    var lru: seq<Element<K, V>>
    ghost var contents: seq<Entry<K, V>>

    /** Map and list hold the same elements, each under its own key and each once, most recent first. */
    ghost predicate Valid()
      reads this, lru
    {
      && cap > 0 && |lru| <= cap
      && Linked()
    }

    ghost predicate Linked()
      reads this, lru
    {
      Matched() && Indexed() && Distinct(contents)
    }

    ghost predicate Matched()
      reads this, lru
    {
      |contents| == |lru| && forall i :: 0 <= i < |lru| ==> contents[i] == Entry(lru[i].key, lru[i].value)
    }

    ghost predicate Indexed()
      reads this
    {
      && (forall e :: e in lru ==> e.key in items && items[e.key] == e)
      && (forall k :: k in items ==> items[k] in lru && items[k].key == k)
    }

    constructor (cap: nat)
      requires cap > 0
      ensures Valid() && this.cap == cap && contents == []
    {
      this.cap := cap;
      items := map[];
      lru := [];
      contents := [];
    }

    /** Position of the element found under `k`. */
    ghost method Position(k: K) returns (i: nat)
      requires Linked() && k in items
      ensures i < |lru| && lru[i] == items[k] && lru[i].key == k && IndexOf(contents, k) == i
    {
      i :| 0 <= i < |lru| && lru[i] == items[k];
      assert contents[i].key == k;
      IndexUnique(contents, k, i);
    }

    /** A key is in the map exactly when the list has an entry for it. */
    lemma {:induction false} Present(k: K)
      requires Linked()
      ensures k in items <==> IndexOf(contents, k) < |contents|
      ensures k in items ==> contents[IndexOf(contents, k)].value == items[k].value
    {
      var n := IndexOf(contents, k);
      if n < |contents| {
        assert lru[n] in lru && lru[n].key == k;
      }
      forall i | 0 <= i < |lru| && k in items && lru[i] == items[k] ensures contents[i].key == k {}
    }

    /** Map and list still match after the element at `i` has moved to the front of both. */
    twostate lemma {:induction false} StillMatched(i: nat)
      requires old(Matched()) && i < |old(lru)| && unchanged(old(lru))
      requires lru == Moved(old(lru), i) && contents == Moved(old(contents), i)
      ensures Matched()
    {
      forall j | 0 <= j < |lru| ensures contents[j] == Entry(lru[j].key, lru[j].value) {
        MovedIndex(old(lru), i, j);
        MovedIndex(old(contents), i, j);
        assert old(lru)[Origin(i, j)] in old(lru);
      }
    }

    /** Moves the element found under `k` to the front of the list. */
    method MoveToFront(k: K)
      requires Linked() && k in items
      modifies this
      ensures Linked() && items == old(items) && |lru| == |old(lru)|
      ensures (forall e :: e in lru ==> e in old(lru)) && (forall e :: e in old(lru) ==> e in lru)
      ensures contents == Use(old(contents), k, items[k].value)
    {
      ghost var i := Position(k);
      UseDistinct(contents, k, items[k].value);
      lru := MovedToFront(lru, items[k]);
      contents := Moved(contents, i);
      StillMatched(i);
    }

    /** A hit answers with the value and counts as a use; a miss changes nothing. */
    method Get(k: K) returns (r: Option<V>)
      requires Valid()
      modifies this
      ensures Valid() && items == old(items)
      ensures (forall e :: e in lru ==> e in old(lru)) && (forall e :: e in old(lru) ==> e in lru)
      ensures r == AnswerIn(old(contents), k)
      ensures contents == Apply(old(contents), Op.Lookup(k), cap)
    {
      Present(k);
      if k in items {
        MoveToFront(k);
        r := Some(items[k].value);
      } else {
        r := None;
      }
    }

    method Insert(k: K, v: V)
      requires Linked() && k !in items
      modifies this
      ensures Linked() && contents == Use(old(contents), k, v) && |contents| == |old(contents)| + 1
      ensures forall e :: e in lru ==> e in old(lru) || fresh(e)
    {
      Present(k);
      UseDistinct(contents, k, v);
      var el := new Element(k, v);
      items := items[k := el];
      lru := [el] + lru;
      contents := [Entry(k, v)] + contents;
    }

    /** Pushes a new key to the front and drops elements from the back while there are too many. */
    method Push(k: K, v: V)
      requires Valid() && k !in items
      modifies this
      ensures Valid() && forall e :: e in lru ==> e in old(lru) || fresh(e)
      ensures contents == Apply(old(contents), Op.Put(k, v), cap)
    {
      Insert(k, v);
      ghost var all := contents;
      while |lru| > cap
        invariant Linked() && |all| >= |contents| && contents == Take(all, |contents|)
        invariant contents == all || |contents| >= cap
        invariant forall e :: e in lru ==> e in old(lru) || fresh(e)
        decreases |lru|
      {
        TakeLess(all, |contents|);
        DropBack();
      }
    }

    method DropBack()
      requires Linked() && |lru| > 0
      modifies this
      ensures Linked() && lru == old(lru)[..|old(lru)| - 1] && contents == old(contents)[..|old(contents)| - 1]
    {
      var last := |lru| - 1;
      var oldest := lru[last];
      assert forall i :: 0 <= i < last ==> contents[i].key != contents[last].key;
      lru := lru[..last];
      contents := contents[..last];
      items := items - {oldest.key};
    }

    /** Replaces the value of a key in place, or pushes the key; either way it becomes the most recent. */
    method Put(k: K, v: V)
      requires Valid()
      modifies this, lru
      ensures Valid() && forall e :: e in lru ==> e in old(lru) || fresh(e)
      ensures contents == Apply(old(contents), Op.Put(k, v), cap)
    {
      Present(k);
      if k in items {
        ghost var i := Position(k);
        Replaced(contents, i, k, v);
        items[k].value := v;
        contents := contents[i := Entry(k, v)];
        MoveToFront(k);
      } else {
        Push(k, v);
      }
    }
  }

  ghost function AnswerIn<K, V>(es: seq<Entry<K, V>>, k: K): Option<V> {
    if IndexOf(es, k) < |es| then Some(es[IndexOf(es, k)].value) else None
  }

  /** Changing a value in place and then moving the entry is one use with the new value. */
  lemma {:induction false} Replaced<K, V>(es: seq<Entry<K, V>>, i: nat, k: K, v: V)
    requires Distinct(es) && i < |es| && IndexOf(es, k) == i
    ensures Distinct(es[i := Entry(k, v)]) && IndexOf(es[i := Entry(k, v)], k) == i
    ensures Use(es[i := Entry(k, v)], k, v) == Use(es, k, v) && |Use(es, k, v)| == |es|
  {
    IndexUnique(es[i := Entry(k, v)], k, i);
  }

  /** The list with its element at `i` moved to the front. */
  function Moved<T>(s: seq<T>, i: nat): seq<T>
    requires i < |s|
  {
    [s[i]] + RemoveAt(s, i)
  }

  function Origin(i: nat, j: nat): nat {
    if j == 0 then i else if j <= i then j - 1 else j
  }

  lemma {:induction false} MovedIndex<T>(s: seq<T>, i: nat, j: nat)
    requires i < |s| && j < |s|
    ensures |Moved(s, i)| == |s| && Moved(s, i)[j] == s[Origin(i, j)]
  {}

  /** The list with one of its elements moved to the front. */
  function MovedToFront<T(==)>(s: seq<T>, x: T): (r: seq<T>)
    requires x in s && forall i, j :: 0 <= i < j < |s| ==> s[i] != s[j]
    ensures |r| == |s| && (forall y :: y in r ==> y in s) && (forall y :: y in s ==> y in r)
    ensures forall i :: 0 <= i < |s| && s[i] == x ==> r == Moved(s, i)
  {
    var i :| 0 <= i < |s| && s[i] == x;
    var r := Moved(s, i);
    assert forall j :: 0 <= j < |s| ==> s[j] == r[if j < i then j + 1 else if j == i then 0 else j];
    r
  }
}
