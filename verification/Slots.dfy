/** Where KIMA keeps its descriptors: pool pages cut into slots.  A used slot is indexed under
    the address it describes, an unused one waits in the free tree.  Block descriptors and page
    descriptors are kept in two such pools. */
module Slots {
  import opened Arith

  datatype Slot = Slot(page: nat, index: nat) {
    /** Slots start at `off` on their page and are `width` apart. */
    function Address(off: nat, width: nat): nat {
      page + off + index * width
    }

    predicate AtMost(other: Slot) {
      page < other.page || (page == other.page && index <= other.index)
    }
  }

  /** The page of a slot is its address rounded down to the page size. */
  lemma PageOfAddress(s: Slot, ps: nat, off: nat, width: nat, count: nat)
    requires ps > 0 && width > 0 && s.page % ps == 0 && s.index < count && off + count * width <= ps
    ensures FloorTo(s.Address(off, width), ps) == s.page
  {
    assert s.index * width + width == (s.index + 1) * width;
    MulMonotone(s.index + 1, count, width);
    FloorUnique(s.Address(off, width), ps, s.page);
  }

  /** The order of addresses, by which the free tree is kept, is page first, then index. */
  lemma AddressOrder(s: Slot, t: Slot, ps: nat, off: nat, width: nat, count: nat)
    requires ps > 0 && width > 0 && s.page % ps == 0 && t.page % ps == 0
    requires s.index < count && t.index < count && off + count * width <= ps
    ensures s.AtMost(t) <==> s.Address(off, width) <= t.Address(off, width)
  {
    if s.page == t.page {
      if s.index <= t.index {
        MulMonotone(s.index, t.index, width);
      } else {
        MulMonotone(t.index + 1, s.index, width);
        assert (t.index + 1) * width == t.index * width + width;
      }
    } else if s.page < t.page {
      MultiplesApart(s.page, t.page, ps);
      PageOfAddress(s, ps, off, width, count);
    } else {
      MultiplesApart(t.page, s.page, ps);
      PageOfAddress(t, ps, off, width, count);
    }
  }

  function SlotsOf(page: nat, count: nat): set<Slot> {
    set i | 0 <= i < count :: Slot(page, i)
  }

  ghost predicate IsFirst(s: set<Slot>, m: Slot) {
    m in s && forall x <- s :: m.AtMost(x)
  }

  lemma {:induction false} FirstExists(s: set<Slot>)
    requires s != {}
    ensures exists m :: IsFirst(s, m)
    decreases s
  {
    var x :| x in s;
    if s == {x} {
      assert IsFirst(s, x);
    } else {
      FirstExists(s - {x});
      var m :| IsFirst(s - {x}, m);
      var f := if x.AtMost(m) then x else m;
      forall y | y in s
        ensures f.AtMost(y)
      {
        assert y == x || y in s - {x};
      }
      assert IsFirst(s, f);
    }
  }

  type Index = map<nat, Slot>

  /** Some address is described by `s`. */
  ghost predicate InUse(query: Index, s: Slot) {
    exists k :: k in query && query[k] == s
  }

  /** The described addresses whose descriptor sits on `page`. */
  ghost function UsedOn(query: Index, page: nat): set<nat> {
    set k | k in query && query[k].page == page
  }

  /** The slots of the pool pages are all accounted for: each is free or describes exactly one
      address, never both. */
  ghost predicate Partitioned(query: Index, free: set<Slot>, pages: set<nat>, count: nat) {
    && (forall k <- query :: query[k].page in pages && query[k].index < count && query[k] !in free)
    && (forall k <- query, k' <- query :: query[k] == query[k'] ==> k == k')
    && (forall s <- free :: s.page in pages && s.index < count)
    && (forall s: Slot :: s.page in pages && s.index < count && s !in free ==> InUse(query, s))
  }

  /** The header of a page counts its used slots; no page without a used slot is kept. */
  ghost predicate HeadersRight(query: Index, used: map<nat, nat>) {
    forall pg <- used :: 0 < used[pg] == |UsedOn(query, pg)|
  }

  lemma TakeKeeps(query: Index, free: set<Slot>, pages: set<nat>, count: nat, key: nat, slot: Slot)
    requires Partitioned(query, free, pages, count) && key !in query && slot in free
    ensures Partitioned(query[key := slot], free - {slot}, pages, count)
  {
    var query' := query[key := slot];
    forall s: Slot | s.page in pages && s.index < count && s !in free - {slot}
      ensures InUse(query', s)
    {
      if s == slot {
        assert query'[key] == s;
      } else {
        var k :| k in query && query[k] == s;
        assert query'[k] == s;
      }
    }
  }

  /** One more address described by a slot of `pg`. */
  lemma TakeCounts(query: Index, key: nat, slot: Slot, pg: nat)
    requires key !in query
    ensures |UsedOn(query[key := slot], pg)| == |UsedOn(query, pg)| + (if slot.page == pg then 1 else 0)
  {
    assert UsedOn(query[key := slot], pg) == UsedOn(query, pg) + (if slot.page == pg then {key} else {});
    assert key !in UsedOn(query, pg);
  }

  lemma TakeHeaders(query: Index, used: map<nat, nat>, key: nat, slot: Slot, n: nat)
    requires HeadersRight(query, used) && key !in query
    requires n == 1 + |UsedOn(query, slot.page)|
    ensures HeadersRight(query[key := slot], used[slot.page := n])
  {
    var used' := used[slot.page := n];
    forall pg | pg in used'
      ensures 0 < used'[pg] == |UsedOn(query[key := slot], pg)|
    {
      TakeCounts(query, key, slot, pg);
    }
  }

  lemma NewPageKeeps(query: Index, pages: set<nat>, count: nat, key: nat, page: nat)
    requires 0 < count && Partitioned(query, {}, pages, count) && key !in query && page !in pages
    ensures Partitioned(query[key := Slot(page, 0)], set i | 1 <= i < count :: Slot(page, i), pages + {page}, count)
  {
    var query', free := query[key := Slot(page, 0)], set i | 1 <= i < count :: Slot(page, i);
    forall s: Slot | s.page in pages + {page} && s.index < count && s !in free
      ensures InUse(query', s)
    {
      if s.page == page {
        assert s == Slot(page, s.index);
        assert query'[key] == s;
      } else {
        var k :| k in query && query[k] == s;
        assert query'[k] == s;
      }
    }
  }

  lemma NoneOnNewPage(query: Index, free: set<Slot>, pages: set<nat>, count: nat, page: nat)
    requires Partitioned(query, free, pages, count) && page !in pages
    ensures UsedOn(query, page) == {}
  {
  }

  lemma FreeHeaders(query: Index, used: map<nat, nat>, key: nat)
    requires HeadersRight(query, used) && key in query && query[key].page in used
    ensures var pg := query[key].page;
      && 0 < used[pg] && (used[pg] == 1 <==> UsedOn(query, pg) == {key})
      && (used[pg] == 1 ==> UsedOn(query - {key}, pg) == {} && HeadersRight(query - {key}, used - {pg}))
      && (used[pg] != 1 ==> HeadersRight(query - {key}, used[pg := used[pg] - 1]))
  {
    var pg, query' := query[key].page, query - {key};
    forall p | p in used
      ensures |UsedOn(query', p)| == used[p] - (if p == pg then 1 else 0)
    {
      FreeCounts(query, key, p);
    }
    FreeCounts(query, key, pg);
  }

  lemma FreeKeeps(query: Index, free: set<Slot>, pages: set<nat>, count: nat, key: nat)
    requires Partitioned(query, free, pages, count) && key in query
    ensures Partitioned(query - {key}, free + {query[key]}, pages, count)
  {
    var query' := query - {key};
    forall s: Slot | s.page in pages && s.index < count && s !in free + {query[key]}
      ensures InUse(query', s)
    {
      var k :| k in query && query[k] == s;
      assert query'[k] == s;
    }
  }

  lemma FreeCounts(query: Index, key: nat, pg: nat)
    requires key in query
    ensures |UsedOn(query - {key}, pg)| == |UsedOn(query, pg)| - (if query[key].page == pg then 1 else 0)
    ensures query[key].page == pg ==> (UsedOn(query - {key}, pg) == {} <==> UsedOn(query, pg) == {key})
  {
    var rest := UsedOn(query - {key}, pg);
    assert UsedOn(query, pg) == rest + (if query[key].page == pg then {key} else {});
  }

  lemma ReleaseKeeps(query: Index, free: set<Slot>, pages: set<nat>, count: nat, pg: nat)
    requires Partitioned(query, free, pages, count) && UsedOn(query, pg) == {}
    ensures Partitioned(query, free - SlotsOf(pg, count), pages - {pg}, count)
  {
    forall k | k in query
      ensures query[k].page != pg
    {
      assert k !in UsedOn(query, pg);
    }
    forall s | s in free && s.page == pg
      ensures s in SlotsOf(pg, count)
    {
      assert s == Slot(pg, s.index);
    }
  }

  lemma MinusAbsorbs(a: set<Slot>, x: Slot, s: set<Slot>)
    requires x in s
    ensures a + {x} - s == a - s
  {
  }

  /** Freeing a slot, in both outcomes. */
  lemma FreeStep(query: Index, free: set<Slot>, used: map<nat, nat>, count: nat, key: nat)
    requires Partitioned(query, free, used.Keys, count) && HeadersRight(query, used) && key in query
    ensures var slot, pg, query' := query[key], query[key].page, query - {key};
      && pg in used && 0 < used[pg] && (used[pg] == 1 <==> UsedOn(query, pg) == {key})
      && (used[pg] == 1 ==>
          && Settled(query', free - SlotsOf(pg, count), used - {pg}, count)
          && SlotsOf(pg, count) <= free + {slot}
          && free + {slot} - SlotsOf(pg, count) == free - SlotsOf(pg, count)
          && used[pg := 0] - {pg} == used - {pg})
      && (used[pg] != 1 ==>
          && Settled(query', free + {slot}, used[pg := used[pg] - 1], count)
          && used[pg := used[pg] - 1].Keys == used.Keys)
  {
    hide Partitioned, HeadersRight, UsedOn;
    var slot, pg, query' := query[key], query[key].page, query - {key};
    UsedSlot(query, free, used.Keys, count, key);
    FreeKeeps(query, free, used.Keys, count, key);
    FreeHeaders(query, used, key);
    assert used[pg := used[pg] - 1].Keys == used.Keys;
    if used[pg] == 1 {
      ReleaseKeeps(query', free + {slot}, used.Keys, count, pg);
      LastOnPage(query, free, used.Keys, count, key);
      MinusAbsorbs(free, slot, SlotsOf(pg, count));
      assert (used - {pg}).Keys == used.Keys - {pg};
    }
  }

  lemma FreeSlotFacts(query: Index, free: set<Slot>, used: map<nat, nat>, count: nat, slot: Slot)
    requires Partitioned(query, free, used.Keys, count) && HeadersRight(query, used) && slot in free
    ensures slot.page in used && used[slot.page] == |UsedOn(query, slot.page)| && !InUse(query, slot)
  {
  }

  /** The pool is in order. */
  ghost predicate Settled(query: Index, free: set<Slot>, used: map<nat, nat>, count: nat) {
    Partitioned(query, free, used.Keys, count) && HeadersRight(query, used)
  }

  lemma UsedSlot(query: Index, free: set<Slot>, pages: set<nat>, count: nat, key: nat)
    requires Partitioned(query, free, pages, count) && key in query
    ensures query[key].page in pages && query[key].index < count && query[key] in SlotsOf(query[key].page, count)
  {
    assert query[key] == Slot(query[key].page, query[key].index);
  }

  /** When the last used slot of a page is freed, all slots of the page are free. */
  lemma LastOnPage(query: Index, free: set<Slot>, pages: set<nat>, count: nat, key: nat)
    requires Partitioned(query, free, pages, count) && key in query && UsedOn(query, query[key].page) == {key}
    ensures SlotsOf(query[key].page, count) <= free + {query[key]}
  {
    var pg := query[key].page;
    forall s | s in SlotsOf(pg, count) && s !in free
      ensures s == query[key]
    {
      assert InUse(query, s);
      var k :| k in query && query[k] == s;
      assert k in UsedOn(query, pg);
    }
  }

  class SlotPool {
    const count: nat
    var query: Index
    var free: set<Slot>
    var used: map<nat, nat>

    constructor (n: nat)
      requires 0 < n
      ensures count == n && Valid() && query == map[] && free == {} && used == map[]
    {
      count := n;
      query, free, used := map[], {}, map[];
    }

    ghost predicate Valid()
      reads this
    {
      0 < count && Partitioned(query, free, used.Keys, count) && HeadersRight(query, used)
    }

    /** `kima_alloc_ublk` and `kima_alloc_vpgdesc`: the first free slot, or the first slot of a
        new page.  `page` is the page handed out when one is needed, 0 for none. */
    method AllocSlot(key: nat, page: nat) returns (ok: bool, slot: Slot)
      requires Valid() && key !in query && page !in used
      modifies this
      ensures Valid()
      ensures ok <==> old(free) != {} || page != 0
      ensures !ok ==> unchanged(this)
      ensures ok ==> query == old(query)[key := slot] && !InUse(old(query), slot)
      ensures old(free) != {} ==> IsFirst(old(free), slot) && free == old(free) - {slot} && used.Keys == old(used.Keys)
      ensures ok && old(free) == {} ==> slot == Slot(page, 0) && used == old(used)[page := 1]
    {
      slot := Slot(page, 0);
      if s :| s in free && forall x <- free :: s.AtMost(x) {
        ok, slot := true, s;
        TakeFree(key, slot);
        return;
      }
      assert free == {} by {
        if free != {} {
          FirstExists(free);
        }
      }
      ok := page != 0;
      if ok {
        TakeNewPage(key, page);
      }
    }

    method TakeFree(key: nat, slot: Slot)
      requires Valid() && key !in query && slot in free
      modifies this
      ensures Valid() && query == old(query)[key := slot] && free == old(free) - {slot}
      ensures !InUse(old(query), slot) && used.Keys == old(used.Keys)
    {
      hide Partitioned, HeadersRight, UsedOn, InUse;
      FreeSlotFacts(query, free, used, count, slot);
      TakeKeeps(query, free, used.Keys, count, key, slot);
      TakeHeaders(query, used, key, slot, used[slot.page] + 1);
      used := used[slot.page := used[slot.page] + 1];
      free := free - {slot};
      query := query[key := slot];
      assert used.Keys == old(used.Keys);
    }

    method TakeNewPage(key: nat, page: nat)
      requires Valid() && key !in query && free == {} && page !in used
      modifies this
      ensures Valid() && query == old(query)[key := Slot(page, 0)]
      ensures !InUse(old(query), Slot(page, 0)) && used == old(used)[page := 1]
    {
      NewPageKeeps(query, used.Keys, count, key, page);
      NoneOnNewPage(query, free, used.Keys, count, page);
      TakeHeaders(query, used, key, Slot(page, 0), 1);
      used := used[page := 1];
      query := query[key := Slot(page, 0)];
      free := set i | 1 <= i < count :: Slot(page, i);
      assert used.Keys == old(used.Keys) + {page};
    }

    /** `kima_free_ublk` and `kima_free_vpgdesc`: the slot becomes free, and a page whose last used
        slot this was is given back with all its slots. */
    method FreeSlot(key: nat) returns (released: bool)
      requires Valid() && key in query
      modifies this
      ensures Valid() && query == old(query) - {key}
      ensures var pg := old(query)[key].page;
        && (released <==> UsedOn(old(query), pg) == {key})
        && (released ==> used == old(used) - {pg} && free == old(free) - SlotsOf(pg, count))
        && (released ==> SlotsOf(pg, count) <= old(free) + {old(query)[key]})
        && (!released ==> used.Keys == old(used.Keys) && free == old(free) + {old(query)[key]})
    {
      hide Partitioned, HeadersRight, UsedOn;
      var slot := query[key];
      var pg := slot.page;
      FreeStep(query, free, used, count, key);
      query := query - {key};
      free := free + {slot};
      used := used[pg := used[pg] - 1];
      released := used[pg] == 0;
      if released {
        free := free - SlotsOf(pg, count);
        used := used - {pg};
      }
    }
  }
}
