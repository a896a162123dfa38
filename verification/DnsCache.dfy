/** The cache from resolved addresses back to the name that was asked for. */
module DnsCache {
  import opened Bytes
  import opened NetAddr
  import opened Recency

  const DNS_CACHE_SIZE := 2048

  /** The name last put for an address that is among the most recently used, and the empty name otherwise. */
  ghost function Expected(history: seq<Op<Addr, bytes>>, key: Addr): Option<bytes> {
    if AmongRecent(UsesOf(history, 2048), key, 2048) then LastPut(history, key) else Some([])
  }

  class DnsNameCache {
    const table: LruTable<Addr, bytes>
    ghost var history: seq<Op<Addr, bytes>>

    ghost predicate Valid()
      reads this, table, table.lru
    {
      && table.Valid()
      && table.cap == DNS_CACHE_SIZE
      && table.contents == RunOps(history, DNS_CACHE_SIZE)
    }

    constructor ()
      ensures Valid() && history == []
    {
      table := new LruTable(DNS_CACHE_SIZE);
      history := [];
    }

    /** A text that is no address, and an address that is not cached, both give the empty name. */
    method Lookup(ip: Option<Addr>) returns (name: bytes)
      requires Valid()
      modifies this, table
      ensures Valid()
      ensures ip == None ==> name == [] && history == old(history)
      ensures ip.Some? ==> history == old(history) + [Op.Lookup(Unmap(ip.value))]
      ensures ip.Some? ==> Some(name) == Expected(old(history), Unmap(ip.value))
    {
      if ip == None {
        return [];
      }
      var key := Unmap(ip.value);
      TableAnswers(history, DNS_CACHE_SIZE, key);
      var r := table.Get(key);
      history := history + [Op.Lookup(key)];
      assert history[..|history| - 1] == old(history);
      name := if r.Some? then r.value else [];
    }

    method Put(addr: Addr, name: bytes)
      requires Valid()
      modifies this, table, table.lru
      ensures Valid()
      ensures history == old(history) + [Op.Put(Unmap(addr), name)]
    {
      var key := Unmap(addr);
      table.Put(key, name);
      history := history + [Op.Put(key, name)];
      assert history[..|history| - 1] == old(history);
    }
  }
}
