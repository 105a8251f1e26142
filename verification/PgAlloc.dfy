/** Physical pages: reference counts and the free lists of the memory areas. */
module PgAlloc {
  import opened Keys

  /** The descriptor of one page. */
  class Mad {
    const addr: nat
    var refCount: nat
    var nextFree: Mad?
    var prevFree: Mad?

    constructor (addr: nat)
      ensures this.addr == addr && refCount == 0 && nextFree == null && prevFree == null
    {
      this.addr, refCount, nextFree, prevFree := addr, 0, null, null;
    }
  }

  ghost function At(l: seq<Mad>, k: int): Mad? {
    if 0 <= k < |l| then l[k] else null
  }

  ghost predicate Distinct(l: seq<Mad>) {
    forall i, j :: 0 <= i < j < |l| ==> l[i] != l[j]
  }

  ghost function Without(l: seq<Mad>, k: nat): seq<Mad>
    requires k < |l|
  {
    l[..k] + l[k + 1..]
  }

  lemma WithoutOne(l: seq<Mad>, k: nat)
    requires k < |l| && Distinct(l)
    ensures Distinct(Without(l, k)) && l[k] !in Without(l, k)
    ensures forall m :: m in Without(l, k) <==> m in l && m != l[k]
  {
    var l' := Without(l, k);
    forall m | m in l && m != l[k]
      ensures m in l'
    {
      var i :| 0 <= i < |l| && l[i] == m;
      assert l'[if i < k then i else i - 1] == m;
    }
  }

  /** A memory area. */
  class Area {
    const base: nat
    const len: nat
    const kind: nat
    var freeList: Mad?
    /** The query tree of the descriptors, by page address. */
    var mads: map<nat, Mad>
    /** The descriptors reached from `free_list`. */
    ghost var list: seq<Mad>
    ghost var repr: set<Mad>

    /** A listed descriptor is free; its links are those of a doubly linked list, but that the first
        may point back to one that was freed since, which points to it. */
    ghost predicate ListedAt(k: nat)
      requires k < |list|
      reads this, repr, list[k]
    {
      var m := list[k];
      && m in repr && m.refCount == 0 && m.nextFree == At(list, k + 1)
      && if k > 0 then m.prevFree == list[k - 1]
         else m.prevFree != null ==>
           m.prevFree in repr && m.prevFree !in list && m.prevFree.refCount == 0 && m.prevFree.nextFree == m
    }

    /** A descriptor that is not listed points back to none, and forward to none, to one that is not
        listed, or to the first that is; only a free one points forward. */
    ghost predicate UnlistedAt(m: Mad)
      reads this, m
    {
      && m.prevFree == null
      && (m.nextFree != null ==> m.refCount == 0 && m.nextFree in repr)
      && (m.nextFree != null && m.nextFree in list ==> m.nextFree == At(list, 0))
    }

    ghost predicate Valid()
      reads this, repr
    {
      && (forall a <- mads :: mads[a] in repr && mads[a].addr == a && base <= a < base + len)
      && (forall m <- repr :: m.addr in mads && mads[m.addr] == m)
      && Distinct(list) && freeList == At(list, 0)
      && (forall m <- list :: m in repr)
      && (forall k :: 0 <= k < |list| ==> ListedAt(k))
      && (forall m <- repr :: m !in list ==> UnlistedAt(m))
    }

    constructor (base: nat, len: nat, kind: nat)
      ensures Valid() && this.base == base && this.len == len && this.kind == kind && mads == map[] && list == []
      ensures repr == {}
    {
      this.base, this.len, this.kind := base, len, kind;
      freeList, mads, list, repr := null, map[], [], {};
    }

    /** How initialization describes a free page of the area: at the end of the list, after `prev`. */
    method AddFree(addr: nat, prev: Mad?) returns (mad: Mad)
      requires Valid() && addr !in mads && base <= addr < base + len && prev == At(list, |list| - 1)
      modifies this, repr
      ensures Valid() && fresh(mad) && mad.addr == addr && list == old(list) + [mad] && repr == old(repr) + {mad}
      ensures forall m <- old(repr) :: m.refCount == old(m.refCount)
    {
      mad := new Mad(addr);
      if prev != null {
        mad.prevFree := prev;
        prev.nextFree := mad;
      } else {
        freeList := mad;
      }
      mads, list, repr := mads[addr := mad], list + [mad], repr + {mad};
      Appended(mad);
    }

    twostate lemma Appended(new mad: Mad)
      requires old(Valid()) && fresh(mad) && mad.addr !in old(mads) && base <= mad.addr < base + len
      requires var prev := At(old(list), |old(list)| - 1);
        && mad.refCount == 0 && mad.nextFree == null && mad.prevFree == prev
        && freeList == (if prev == null then mad else old(freeList))
        && forall m <- old(repr) ::
             && m.refCount == old(m.refCount) && m.prevFree == old(m.prevFree)
             && m.nextFree == if m == prev then mad else old(m.nextFree)
      requires mads == old(mads)[mad.addr := mad] && list == old(list) + [mad] && repr == old(repr) + {mad}
      ensures Valid()
    {
      forall i | 0 <= i < |list|
        ensures ListedAt(i)
      {
        if i < |old(list)| {
          assert old(ListedAt(i));
        }
      }
      forall m | m in repr && m !in list
        ensures UnlistedAt(m)
      {
        assert old(UnlistedAt(m));
      }
    }

    /** How initialization describes a page that it uses itself: without a reference, but on no list. */
    method AddReserved(addr: nat) returns (mad: Mad)
      requires Valid() && addr !in mads && base <= addr < base + len
      modifies this
      ensures Valid() && fresh(mad) && mad.addr == addr && mad.refCount == 0 && list == old(list)
      ensures repr == old(repr) + {mad}
    {
      mad := new Mad(addr);
      mads, repr := mads[addr := mad], repr + {mad};
      forall i | 0 <= i < |list|
        ensures ListedAt(i)
      {
        assert old(ListedAt(i));
      }
      forall m | m in repr && m !in list
        ensures UnlistedAt(m)
      {
        assert m != mad ==> old(UnlistedAt(m));
      }
    }

    /** What taking a free page writes: its neighbours are linked to each other. */
    twostate predicate Taken(mad: Mad)
      reads this, repr, mad
    {
      && mad.refCount == 1 && mad.nextFree == null && mad.prevFree == null
      && freeList == (if mad == old(freeList) then old(mad.nextFree) else old(freeList))
      && repr == old(repr) && mads == old(mads)
      && forall m <- old(repr) :: m != mad ==>
           && m.refCount == old(m.refCount)
           && m.nextFree == (if m == old(mad.prevFree) then old(mad.nextFree) else old(m.nextFree))
           && m.prevFree == (if m == old(mad.nextFree) then old(mad.prevFree) else old(m.prevFree))
    }

    /** The writes of `ki_set_page_used` on a page that was free. */
    method Take(mad: Mad)
      requires Valid() && mad in repr && mad.refCount == 0
      modifies this`freeList, repr
      ensures Taken(mad)
    {
      Around(mad);
      mad.refCount := mad.refCount + 1;
      if mad == freeList {
        freeList := mad.nextFree;
      }
      if mad.prevFree != null {
        mad.prevFree.nextFree := mad.nextFree;
      }
      if mad.nextFree != null {
        mad.nextFree.prevFree := mad.prevFree;
      }
      mad.prevFree := null;
      mad.nextFree := null;
    }

    /** The neighbours of a descriptor are descriptors of the area, other than itself. */
    lemma Around(mad: Mad)
      requires Valid() && mad in repr
      ensures mad.prevFree != null ==> mad.prevFree in repr && mad.prevFree != mad
      ensures mad.nextFree != null ==> mad.nextFree in repr
      ensures mad in list ==> mad.nextFree != mad
    {
      if mad in list {
        var k :| 0 <= k < |list| && list[k] == mad;
        assert ListedAt(k);
      }
    }

    twostate lemma TookListed(k: nat)
      requires old(Valid()) && k < |old(list)|
      requires Taken(old(list)[k]) && list == Without(old(list), k)
      ensures Valid()
    {
      var was := old(list);
      var mad := was[k];
      WithoutOne(was, k);
      assert old(ListedAt(k));
      forall i | 0 <= i < |list|
        ensures ListedAt(i)
      {
        var j := if i < k then i else i + 1;
        assert list[i] == was[j] && old(ListedAt(j));
      }
      forall m | m in repr && m !in list
        ensures UnlistedAt(m)
      {
        if m != mad {
          assert old(UnlistedAt(m));
        }
      }
    }

    twostate lemma TookUnlisted(mad: Mad)
      requires old(Valid()) && mad in old(repr) && mad !in old(list) && old(mad.refCount) == 0
      requires Taken(mad) && list == old(list)
      ensures Valid()
    {
      assert old(UnlistedAt(mad));
      forall i | 0 <= i < |list|
        ensures ListedAt(i)
      {
        assert old(ListedAt(i));
      }
      forall m | m in repr && m !in list
        ensures UnlistedAt(m)
      {
        assert old(UnlistedAt(m));
      }
    }

    lemma ListFacts()
      requires Valid()
      ensures Distinct(list) && forall m <- list :: m in repr && m.refCount == 0
    {
      forall m | m in list
        ensures m in repr && m.refCount == 0
      {
        var k :| 0 <= k < |list| && list[k] == m;
        assert ListedAt(k);
      }
    }

    twostate lemma MoreOrFewer(mad: Mad)
      requires old(Valid()) && mad in old(repr) && old(mad.refCount) > 0 && mad.refCount > 0
      requires unchanged(this)
      requires forall m <- old(repr) :: m.nextFree == old(m.nextFree) && m.prevFree == old(m.prevFree)
      requires forall m <- old(repr) :: m != mad ==> m.refCount == old(m.refCount)
      ensures Valid()
    {
      forall i | 0 <= i < |list|
        ensures ListedAt(i)
      {
        assert old(ListedAt(i));
      }
      forall m | m in repr && m !in list
        ensures UnlistedAt(m)
      {
        assert old(UnlistedAt(m));
      }
    }

    /** `ki_set_page_used`: a page that was free leaves the list. */
    method SetUsed(mad: Mad)
      requires Valid() && mad in repr
      modifies this, repr
      ensures Valid() && repr == old(repr) && mads == old(mads)
      ensures mad.refCount == old(mad.refCount) + 1 && forall m <- repr :: m != mad ==> m.refCount == old(m.refCount)
      ensures forall m :: m in list <==> m in old(list) && m != mad
    {
      hide Valid, ListedAt, UnlistedAt;
      ListFacts();
      if mad.refCount == 0 {
        ghost var was := list;
        Take(mad);
        if k :| 0 <= k < |was| && was[k] == mad {
          WithoutOne(was, k);
          list := Without(was, k);
          TookListed(k);
        } else {
          TookUnlisted(mad);
        }
      } else {
        mad.refCount := mad.refCount + 1;
        MoreOrFewer(mad);
      }
    }

    twostate lemma GaveBack(mad: Mad)
      requires old(Valid()) && mad in old(repr) && mad !in old(list) && old(mad.refCount) == 1 && mad.refCount == 0
      requires unchanged(this) && mad.nextFree == freeList
      requires forall m <- old(repr) :: m != mad ==> m.refCount == old(m.refCount) && m.nextFree == old(m.nextFree)
      requires forall m <- old(repr) :: m.prevFree == if m == freeList then mad else old(m.prevFree)
      ensures Valid()
    {
      assert old(UnlistedAt(mad));
      forall i | 0 <= i < |list|
        ensures ListedAt(i)
      {
        assert old(ListedAt(i));
      }
      forall m | m in repr && m !in list
        ensures UnlistedAt(m)
      {
        assert old(UnlistedAt(m));
      }
    }

    /** `ki_set_page_free`.  The descriptor asserted to have no predecessor has none; the list is left
        as it was, so a freed page is not handed out again. */
    method SetFree(mad: Mad)
      requires Valid() && mad in repr
      modifies repr
      ensures Valid()
      ensures mad.refCount == if old(mad.refCount) > 0 then old(mad.refCount) - 1 else 0
      ensures forall m <- repr :: m != mad ==> m.refCount == old(m.refCount)
    {
      hide Valid, ListedAt, UnlistedAt;
      if mad.refCount == 0 {
        return;
      }
      ListFacts();
      Used(mad);
      mad.refCount := mad.refCount - 1;
      if mad.refCount == 0 {
        if freeList != null {
          freeList.prevFree := mad;
        }
        mad.nextFree := freeList;
        assert mad.prevFree == null;
        GaveBack(mad);
      } else {
        MoreOrFewer(mad);
      }
    }

    /** A page in use is on no list and has no links. */
    lemma Used(mad: Mad)
      requires Valid() && mad in repr && mad.refCount > 0
      ensures mad !in list && mad.prevFree == null && mad.nextFree == null
      ensures freeList != null ==> freeList in repr && freeList in list
    {
      ListFacts();
      assert UnlistedAt(mad);
    }

    lemma HeadOfList()
      requires Valid()
      ensures freeList == At(list, 0) && (list != [] ==> list[0] in repr)
    {
    }

    /** What is reached from `free_list` by following `next_free` is the list, every page of it free. */
    lemma {:induction false} Reached(path: seq<Mad>)
      requires Valid() && path != [] && path[0] == freeList
      requires forall i :: 0 < i < |path| && path[i - 1] in repr ==> path[i] == path[i - 1].nextFree
      ensures path <= list && forall m <- path :: m in repr && m.refCount == 0
      decreases |path|
    {
      ListFacts();
      if |path| > 1 {
        var n := |path| - 1;
        Reached(path[..n]);
        assert path[n - 1] == path[..n][n - 1] == list[n - 1];
        assert ListedAt(n - 1);
        assert path[n] == path[n - 1].nextFree == At(list, n);
        assert path[n] == list[n] && path == path[..n] + [path[n]];
      }
    }
  }

  // ------------------------------------------------------------------ all areas

  lemma Fewer(keys: set<nat>, done: int, next: nat)
    requires IsNext(keys, done, next)
    ensures |set b | b in keys && b > next| < |set b | b in keys && b > done|
  {
    assert (set b | b in keys && b > done) == (set b | b in keys && b > next) + {next};
  }

  datatype Op = Alloc(kind: nat) | Reference(addr: nat) | Free(addr: nat)

  class Pages {
    /** The tree of the areas, by base address. */
    var areas: map<nat, Area>
    ghost var all: set<Area>
    ghost var repr: set<Mad>
    /** The pages on a free list. */
    ghost var free: set<Mad>

    ghost predicate AreasApart()
      reads this, all
    {
      && (forall b <- areas :: areas[b] in all && areas[b].base == b)
      && (forall a <- all :: a.base in areas && areas[a.base] == a)
      && (forall a <- all, a' <- all :: a != a' ==> a.repr !! a'.repr)
      && (forall a <- all, a' <- all :: a.base < a'.base ==> a.base + a.len <= a'.base)
    }

    ghost predicate Valid()
      reads this, all, repr
    {
      && AreasApart()
      && (forall a <- all :: a.repr <= repr && a.Valid())
      && (forall a <- all, m <- a.repr :: m in free <==> m in a.list)
    }

    constructor ()
      ensures Valid() && areas == map[] && all == {} && repr == {} && free == {}
    {
      areas, all, repr, free := map[], {}, {}, {};
    }

    /** Takes in an area that is apart from the others. */
    method AddArea(area: Area)
      requires Valid() && area.Valid() && area !in all && area.base !in areas
      requires forall a <- all :: a.repr !! area.repr
      requires forall a <- all :: a.base + a.len <= area.base || area.base + area.len <= a.base
      modifies this
      ensures Valid() && areas == old(areas)[area.base := area] && all == old(all) + {area}
      ensures repr == old(repr) + area.repr
      ensures free == old(free) - area.repr + (set m | m in area.list)
    {
      hide Area.Valid;
      area.ListFacts();
      areas, all, repr := areas[area.base := area], all + {area}, repr + area.repr;
      free := free - area.repr + (set m | m in area.list);
    }

    /** `ki_get_pmad`. */
    method GetPmad(addr: nat) returns (area: Area?)
      requires Valid()
      ensures area != null ==> area in all && area.base <= addr < area.base + area.len
      ensures area == null ==> forall a <- all :: !(a.base <= addr < a.base + a.len)
    {
      hide Area.Valid;
      var floor := FloorKey(areas.Keys, addr);
      if floor.Some? && addr < floor.value + areas[floor.value].len {
        return areas[floor.value];
      }
      return null;
    }

    /** `kh_get_mad` with the area of the page, or None where it panics. */
    method GetMad(addr: nat) returns (r: Option<(Area, Mad)>)
      requires Valid()
      ensures r.Some? ==> r.value.0 in all && r.value.1 in r.value.0.repr && r.value.1.addr == addr
      ensures r.None? ==> forall a <- all, m <- a.repr :: m.addr != addr
    {
      var area := GetPmad(addr);
      if area != null && addr in area.mads {
        return Some((area, area.mads[addr]));
      }
      return None;
    }

    /** The areas and their pages are the same; only the count of one page has changed. */
    twostate predicate OnlyCount(mad: Mad, count: int)
      reads this, all, repr
    {
      && areas == old(areas) && all == old(all) && repr == old(repr)
      && (forall a <- old(all) :: a.mads == old(a.mads) && a.repr == old(a.repr))
      && forall m <- old(repr) :: m.refCount == if m == mad then count else old(m.refCount)
    }

    /** `ki_set_page_used` on a page of an area. */
    method Use(area: Area, mad: Mad)
      requires Valid() && area in all && mad in area.repr
      modifies this`free, all, repr
      ensures Valid() && OnlyCount(mad, old(mad.refCount) + 1) && free == old(free) - {mad}
    {
      hide Area.Valid;
      area.SetUsed(mad);
      free := free - {mad};
    }

    /** `ki_set_page_free` on a page of an area. */
    method Drop(area: Area, mad: Mad)
      requires Valid() && area in all && mad in area.repr
      modifies repr
      ensures Valid() && OnlyCount(mad, if old(mad.refCount) > 0 then old(mad.refCount) - 1 else 0)
    {
      hide Area.Valid;
      area.SetFree(mad);
    }

    /** No area of the kind has a free list. */
    ghost predicate Exhausted(kind: nat)
      reads this, all
    {
      forall a <- all :: a.kind == kind ==> a.list == []
    }

    /** The area at address 0 is of the kind and the page at address 0 is the first of its list. */
    ghost predicate ZeroFirst(kind: nat)
      reads this, areas.Values
    {
      0 in areas && areas[0].kind == kind && areas[0].list != [] && areas[0].list[0].addr == 0
    }

    /** The page is the first of the list of the lowest area of the kind that has one. */
    ghost predicate Offers(kind: nat, addr: nat)
      reads this, all
    {
      exists a :: a in all && a.kind == kind && a.list != [] && a.list[0] in a.repr && a.list[0].addr == addr
        && forall b <- all :: b.kind == kind && b.base < a.base ==> b.list == []
    }

    /** `ki_alloc_free_page`: the address of the first page of the first area of the kind that has a free
        list, or 0, which is also the address of a page. */
    method AllocFreePage(kind: nat) returns (addr: nat)
      requires Valid()
      ensures addr == 0 <==> Exhausted(kind) || ZeroFirst(kind)
      ensures addr != 0 ==> Offers(kind, addr)
    {
      hide Area.Valid;
      var i := NextKey(areas.Keys, -1);
      var done: int := -1;
      while i.Some?
        invariant -1 <= done && (i.Some? ==> IsNext(areas.Keys, done, i.value))
        invariant i.None? ==> forall b <- areas :: b <= done
        invariant forall a <- all :: a.base <= done && a.kind == kind ==> a.list == []
        decreases |set b | b in areas && b > done|
      {
        var area := areas[i.value];
        area.HeadOfList();
        if area.kind == kind && area.freeList != null {
          OnlyAreaZero(area, kind);
          return area.freeList.addr;
        }
        Fewer(areas.Keys, done, i.value);
        done := i.value;
        i := NextKey(areas.Keys, done);
      }
      return 0;
    }

    /** When the areas before have no list of the kind, the first page of this one is the page at address
        0 exactly when that is the case of the area at address 0. */
    lemma OnlyAreaZero(area: Area, kind: nat)
      requires Valid() && area in all && area.kind == kind && area.list != []
      requires forall a <- all :: a.base < area.base && a.kind == kind ==> a.list == []
      ensures area.list[0].addr == 0 <==> ZeroFirst(kind)
    {
      area.HeadOfList();
      assert area.base <= area.list[0].addr;
    }

    /** The descriptor found for a free page is the free page. */
    lemma FreeMad(addr: nat, kind: nat, found: Option<(Area, Mad)>)
      requires Valid()
      requires Offers(kind, addr)
      requires found.Some? ==> found.value.0 in all && found.value.1 in found.value.0.repr && found.value.1.addr == addr
      requires found.None? ==> forall a <- all, m <- a.repr :: m.addr != addr
      ensures found.Some? && found.value.1 in free && found.value.1.refCount == 0
    {
      var a :| a in all && a.kind == kind && a.list != [] && a.list[0] in a.repr && a.list[0].addr == addr;
      a.ListFacts();
    }

    /** `mm_pgalloc`: a page goes from no references to one, and off the free list.  The result 0 stands for
        none: it means that no area of the kind has a free list, or that the page at address 0 is in the
        way of all others. */
    method PgAlloc(kind: nat) returns (addr: nat, ghost mad: Mad?)
      requires Valid()
      modifies this`free, all, repr
      ensures Valid()
      ensures addr == 0 <==> old(Exhausted(kind)) || old(ZeroFirst(kind))
      ensures addr == 0 ==> mad == null && unchanged(this) && unchanged(all) && unchanged(repr)
      ensures addr != 0 ==> old(Offers(kind, addr))
      ensures addr != 0 ==> mad != null && mad in old(free) && mad in old(repr) && mad.addr == addr
      ensures addr != 0 ==> old(mad.refCount) == 0 && OnlyCount(mad, 1) && free == old(free) - {mad}
    {
      hide Area.Valid;
      addr := AllocFreePage(kind);
      mad := null;
      if addr != 0 {
        var found := GetMad(addr);
        FreeMad(addr, kind, found);
        Use(found.value.0, found.value.1);
        mad := found.value.1;
      }
    }

    lemma ListedIsFree(area: Area)
      requires Valid() && area in all
      ensures forall m <- area.list :: m in free
      ensures free == {} ==> area.list == []
    {
      area.ListFacts();
      forall m | m in area.list
        ensures m in free
      {
        assert m in area.repr;
      }
      assert area.list != [] ==> area.list[0] in free;
    }

    /** `mm_refpg`, false where it panics: one more reference; a free page leaves the free list. */
    method RefPg(addr: nat) returns (ok: bool, ghost mad: Mad?)
      requires Valid()
      modifies this`free, all, repr
      ensures Valid()
      ensures ok <==> exists a, m :: a in old(all) && m in old(a.repr) && m.addr == addr
      ensures !ok ==> unchanged(this) && unchanged(all) && unchanged(repr)
      ensures ok ==> mad != null && mad in old(repr) && mad.addr == addr
      ensures ok ==> OnlyCount(mad, old(mad.refCount) + 1) && free == old(free) - {mad}
    {
      hide Area.Valid;
      mad := null;
      var found := GetMad(addr);
      if found.None? {
        return false, mad;
      }
      Use(found.value.0, found.value.1);
      return true, found.value.1;
    }

    /** `mm_pgfree`, false where it panics: one reference fewer, if there is any.  The free lists stay
        as they are. */
    method PgFree(addr: nat) returns (ok: bool, ghost mad: Mad?)
      requires Valid()
      modifies repr
      ensures Valid()
      ensures ok <==> exists a, m :: a in all && m in a.repr && m.addr == addr
      ensures !ok ==> unchanged(repr)
      ensures ok ==> mad != null && mad in old(repr) && mad.addr == addr
      ensures ok ==> OnlyCount(mad, if old(mad.refCount) > 0 then old(mad.refCount) - 1 else 0)
    {
      hide Area.Valid;
      mad := null;
      var found := GetMad(addr);
      if found.None? {
        return false, mad;
      }
      Drop(found.value.0, found.value.1);
      return true, found.value.1;
    }

    /** One operation of a run, and the page it hands out. */
    method Do(op: Op) returns (ghost mad: Mad?)
      requires Valid()
      modifies this`free, all, repr
      ensures Valid() && all == old(all) && repr == old(repr) && free <= old(free)
      ensures mad != null ==> op.Alloc? && mad in old(free) && mad !in free && mad.refCount == 1
      ensures op.Alloc? && mad == null ==> old(Exhausted(op.kind)) || old(ZeroFirst(op.kind))
    {
      hide Valid, Exhausted, ZeroFirst, Offers;
      mad := null;
      match op {
        case Alloc(kind) =>
          var addr;
          addr, mad := PgAlloc(kind);
        case Reference(addr) =>
          var ok; ghost var m;
          ok, m := RefPg(addr);
        case Free(addr) =>
          var ok; ghost var m;
          ok, m := PgFree(addr);
      }
    }

    /** Over any run, no page is handed out twice and none that is in use is handed out: the pages
        allocated are distinct, and were free until then. */
    method Run(ops: seq<Op>) returns (ghost handed: seq<Mad>)
      requires Valid()
      modifies this`free, all, repr
      ensures Valid() && free <= old(free)
      ensures Distinct(handed) && forall m <- handed :: m in old(free) && m !in free
    {
      hide Valid, Exhausted, ZeroFirst;
      handed := [];
      var i := 0;
      while i < |ops|
        invariant 0 <= i <= |ops| && Valid() && all == old(all) && repr == old(repr) && free <= old(free)
        invariant Distinct(handed) && forall m <- handed :: m in old(free) && m !in free
      {
        ghost var mad := Do(ops[i]);
        if mad != null {
          handed := handed + [mad];
        }
        i := i + 1;
      }
    }
  }

  /** An area of one page: the page is handed out and freed, and then there is none to hand out. */
  method FreedPageIsLost(kind: nat) returns (first: nat, freed: bool, second: nat)
    ensures first == 4096 && freed && second == 0
  {
    hide Area.Valid;
    var area := new Area(4096, 4096, kind);
    var mad := area.AddFree(4096, null);
    var pages := new Pages();
    pages.AddArea(area);
    ghost var taken;
    assert area.list[0] == mad && pages.free == {mad};
    first, taken := pages.PgAlloc(kind);
    assert pages.free == {} && area in pages.all && mad in area.repr;
    pages.ListedIsFree(area);
    freed, taken := pages.PgFree(4096);
    second, taken := pages.PgAlloc(kind);
  }

  /** The first page of the memory in an area of its own, and an area of the same kind with a free page:
      no page is handed out. */
  method ZeroPageBlocks(kind: nat) returns (pages: Pages, ghost other: Area, addr: nat)
    ensures addr == 0 && pages.Valid() && other in pages.all && other.kind == kind && other.list != []
  {
    hide Area.Valid;
    var zero := new Area(0, 4096, kind);
    var mad := zero.AddFree(0, null);
    var area := new Area(4096, 4096, kind);
    var mad' := area.AddFree(4096, null);
    other := area;
    pages := new Pages();
    pages.AddArea(zero);
    pages.AddArea(area);
    assert zero.list[0] == mad && area.list[0] == mad';
    ghost var taken;
    addr, taken := pages.PgAlloc(kind);
  }
}
