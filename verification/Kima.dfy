/** The heap allocator KIMA: blocks placed first-fit over described pages.

    A pool keeps two trees ordered by address: page descriptors with a reference count, and
    block descriptors with a size.  Both are maps here; the tree operations used on them
    (find, nearest key at or below, next key) are those proved for the red-black tree. */
module Kima {
  import opened Arith
  import opened Keys

  type Blocks = map<nat, nat>
  type Pages = map<nat, nat>

  /** [a, a+n) and [b, b+m) share an address. */
  predicate Overlaps(a: nat, n: nat, b: nat, m: nat) {
    a < b + m && b < a + n
  }

  /** No live block shares an address with [b, b+size). */
  ghost predicate FreeAt(bs: Blocks, b: nat, size: nat) {
    forall x <- bs :: !Overlaps(b, size, x, bs[x])
  }

  ghost predicate Disjoint(bs: Blocks) {
    && (forall x <- bs :: 0 < bs[x])
    && (forall x <- bs, y <- bs :: x < y ==> x + bs[x] <= y)
  }

  /** The live blocks that have a byte on page `p`. */
  ghost function Touching(bs: Blocks, ps: nat, p: nat): set<nat> {
    set x | x in bs && Overlaps(x, bs[x], p, ps)
  }

  /** The page descriptors are exactly the pages with a live block on them, and the reference
      count is the number of such blocks. */
  ghost predicate Counted(pages: Pages, bs: Blocks, ps: nat)
    requires ps > 0
  {
    && (forall p <- pages :: p % ps == 0 && pages[p] == |Touching(bs, ps, p)| && 0 < pages[p])
    && (forall p: nat :: p % ps == 0 && Touching(bs, ps, p) != {} ==> p in pages)
  }

  /** Every page of [r, r+len) is described. */
  ghost predicate Described(pages: Pages, ps: nat, r: nat, len: nat)
    requires ps > 0
  {
    forall p: nat :: r <= p < r + len && p % ps == 0 ==> p in pages
  }

  /** A place where the first-fit search may put a block: aligned, free, and inside the run of
      as many described pages as the size alone needs, starting with the page of `b`. */
  ghost predicate Candidate(pages: Pages, bs: Blocks, ps: nat, size: nat, al: nat, b: nat)
    requires ps > 0 && al > 0
  {
    var r := FloorTo(b, ps);
    b % al == 0 && b + size <= r + CeilTo(size, ps) && Described(pages, ps, r, CeilTo(size, ps)) && FreeAt(bs, b, size)
  }

  /** A place that the scan of the run at `page` may choose: aligned, free, and not a whole alignment past
      the last place that fits, which is where rounding up after the limit test can end. */
  ghost predicate Offered(bs: Blocks, ps: nat, size: nat, al: nat, page: nat, b: nat)
    requires ps > 0 && al > 0
  {
    page <= b && b + size < page + CeilTo(size, ps) + al && b % al == 0 && FreeAt(bs, b, size)
  }

  /** An address from which the scan, rounding up, has room; it need not be aligned. */
  ghost predicate Roomy(pages: Pages, bs: Blocks, ps: nat, size: nat, al: nat, c: nat)
    requires ps > 0 && al > 0
  {
    var r := FloorTo(c, ps);
    && c + size <= r + CeilTo(size, ps) && Described(pages, ps, r, CeilTo(size, ps))
    && FreeAt(bs, c, CeilTo(c, al) - c + size)
  }

  /** When rounding up never makes a block leave its run. */
  predicate Fits(ps: nat, size: nat, al: nat)
    requires al > 0
  {
    size % al == 0 || ps < size
  }

  // ------------------------------------------------------------------ which pages a block touches

  /** The pages under [b, b+size) are those from its first to its last. */
  lemma TouchedPages(b: nat, size: nat, ps: nat, p: nat)
    requires ps > 0 && size > 0 && p % ps == 0
    ensures Overlaps(b, size, p, ps) <==> FloorTo(b, ps) <= p < CeilTo(b + size, ps)
  {
    var r, e := FloorTo(b, ps), CeilTo(b + size, ps);
    if p < r {
      MultiplesApart(p, r, ps);
    }
    if e > p {
      MultiplesApart(p, e, ps);
    }
  }

  /** The pages that an allocation counts up, from the page of its base and as many as its
      size needs, are the pages that freeing it counts down. */
  lemma CountedUpAsDown(b: nat, size: nat, ps: nat)
    requires ps > 0 && size > 0 && b + size <= FloorTo(b, ps) + CeilTo(size, ps)
    ensures CeilTo(b + size, ps) == FloorTo(b, ps) + CeilTo(size, ps)
  {
    MultipleSum(FloorTo(b, ps), CeilTo(size, ps), ps);
    CeilUnique(b + size, ps, FloorTo(b, ps) + CeilTo(size, ps));
  }

  // ------------------------------------------------------------------ effect on the counts

  /** One more reference on each described page of [r, r+len). */
  ghost function CountUp(pages: Pages, r: nat, len: nat): Pages {
    map p | p in pages :: if r <= p < r + len then pages[p] + 1 else pages[p]
  }

  /** One reference less on each page of [lo, hi); a page left with none loses its descriptor. */
  ghost function CountDown(pages: Pages, lo: nat, hi: nat): Pages {
    map p | p in pages && !(lo <= p < hi && pages[p] <= 1) :: if lo <= p < hi then (pages[p] - 1) as nat else pages[p]
  }

  /** Descriptors with one reference for the pages of [base, base+len). */
  ghost function FreshPages(ps: nat, base: nat, len: nat): Pages
    requires ps > 0
  {
    map p: nat | base <= p < base + len && p % ps == 0 :: 1
  }

  lemma NewBlockTouches(bs: Blocks, ps: nat, b: nat, size: nat, p: nat)
    requires b !in bs
    ensures Touching(bs[b := size], ps, p) == Touching(bs, ps, p) + if Overlaps(b, size, p, ps) then {b} else {}
    ensures b !in Touching(bs, ps, p)
  {
  }

  lemma FreeIsNew(bs: Blocks, b: nat, size: nat)
    requires Disjoint(bs) && FreeAt(bs, b, size) && 0 < size
    ensures b !in bs && Disjoint(bs[b := size])
  {
    if b in bs {
      assert Overlaps(b, size, b, bs[b]);
    }
    var bs' := bs[b := size];
    forall x, y | x in bs' && y in bs' && x < y
      ensures x + bs'[x] <= y
    {
      if x == b {
        assert !Overlaps(b, size, y, bs[y]);
      } else if y == b {
        assert !Overlaps(b, size, x, bs[x]);
      }
    }
  }

  /** How one page's set of blocks grows with a block. */
  lemma GrowsAt(bs: Blocks, ps: nat, b: nat, size: nat, p: nat)
    requires ps > 0 && size > 0 && b !in bs && p % ps == 0
    ensures var on := FloorTo(b, ps) <= p < CeilTo(b + size, ps);
      && |Touching(bs[b := size], ps, p)| == |Touching(bs, ps, p)| + (if on then 1 else 0)
      && (Touching(bs[b := size], ps, p) != {} <==> on || Touching(bs, ps, p) != {})
  {
    TouchedPages(b, size, ps, p);
    NewBlockTouches(bs, ps, b, size, p);
  }

  /** Placing a block on described pages and counting those pages up keeps the counts right. */
  lemma PlacedCounted(pages: Pages, bs: Blocks, ps: nat, b: nat, size: nat)
    requires ps > 0 && size > 0 && b !in bs && Counted(pages, bs, ps)
    requires b + size <= FloorTo(b, ps) + CeilTo(size, ps)
    requires Described(pages, ps, FloorTo(b, ps), CeilTo(size, ps))
    ensures Counted(CountUp(pages, FloorTo(b, ps), CeilTo(size, ps)), bs[b := size], ps)
  {
    var pages', bs' := CountUp(pages, FloorTo(b, ps), CeilTo(size, ps)), bs[b := size];
    CountedUpAsDown(b, size, ps);
    forall p | p in pages'
      ensures p % ps == 0 && pages'[p] == |Touching(bs', ps, p)| && 0 < pages'[p]
    {
      GrowsAt(bs, ps, b, size, p);
    }
    forall p: nat | p % ps == 0 && Touching(bs', ps, p) != {}
      ensures p in pages'
    {
      GrowsAt(bs, ps, b, size, p);
    }
  }

  /** Placing a block on fresh pages, each of which gets a descriptor with one reference. */
  lemma FreshCounted(pages: Pages, bs: Blocks, ps: nat, b: nat, size: nat)
    requires ps > 0 && size > 0 && b !in bs && b % ps == 0 && Counted(pages, bs, ps)
    requires forall p: nat :: p % ps == 0 && b <= p < b + CeilTo(size, ps) ==> p !in pages
    ensures Counted(pages + FreshPages(ps, b, CeilTo(size, ps)), bs[b := size], ps)
  {
    var n, bs' := CeilTo(size, ps), bs[b := size];
    var pages' := pages + FreshPages(ps, b, n);
    FloorUnique(b, ps, b);
    CountedUpAsDown(b, size, ps);
    forall p | p in pages'
      ensures p % ps == 0 && pages'[p] == |Touching(bs', ps, p)| && 0 < pages'[p]
    {
      GrowsAt(bs, ps, b, size, p);
      if p !in pages {
        assert Touching(bs, ps, p) == {};
      }
    }
    forall p: nat | p % ps == 0 && Touching(bs', ps, p) != {}
      ensures p in pages'
    {
      GrowsAt(bs, ps, b, size, p);
    }
  }

  /** Freeing a block and counting its pages down keeps the counts right. */
  lemma FreedCounted(pages: Pages, bs: Blocks, ps: nat, b: nat)
    requires ps > 0 && b in bs && 0 < bs[b] && Counted(pages, bs, ps)
    ensures Counted(CountDown(pages, FloorTo(b, ps), CeilTo(b + bs[b], ps)), bs - {b}, ps)
  {
    var pages', bs' := CountDown(pages, FloorTo(b, ps), CeilTo(b + bs[b], ps)), bs - {b};
    assert bs'[b := bs[b]] == bs;
    forall p | p in pages'
      ensures p % ps == 0 && pages'[p] == |Touching(bs', ps, p)| && 0 < pages'[p]
    {
      GrowsAt(bs', ps, b, bs[b], p);
    }
    forall p: nat | p % ps == 0 && Touching(bs', ps, p) != {}
      ensures p in pages'
    {
      GrowsAt(bs', ps, b, bs[b], p);
    }
  }

  // ------------------------------------------------------------------ the search

  /** Jumping to the end of a block that overlaps [cur, cur+size) skips no free place. */
  lemma JumpSkipsNothing(bs: Blocks, cur: nat, size: nat, x: nat)
    requires x in bs && Overlaps(cur, size, x, bs[x])
    ensures forall b: nat :: cur <= b < x + bs[x] ==> !FreeAt(bs, b, size)
  {
    forall b: nat | cur <= b < x + bs[x]
      ensures !FreeAt(bs, b, size)
    {
      assert Overlaps(b, size, x, bs[x]);
    }
  }

  /** The block nearest below the last byte tells whether any block overlaps. */
  lemma NearestDecides(bs: Blocks, cur: nat, size: nat, near: Option<nat>)
    requires Disjoint(bs) && 0 < size
    requires near.None? <==> forall x <- bs.Keys :: cur + size - 1 < x
    requires near.Some? ==> IsFloor(bs.Keys, cur + size - 1, near.value)
    requires near.Some? ==> !Overlaps(cur, size, near.value, bs[near.value])
    ensures FreeAt(bs, cur, size)
  {
    forall x | x in bs
      ensures !Overlaps(cur, size, x, bs[x])
    {
      assert x in bs.Keys;
    }
  }

  /** What a request meets outside the pool: the region handed out for it (0 for none), the
      number of page descriptors that can still be had, and whether a block descriptor can. */
  datatype Env = Env(region: nat, pageDescs: nat, blockDesc: bool)

  class Pool {
    const pageSize: nat
    var pages: Pages
    var blocks: Blocks

    constructor (ps: nat)
      requires ps > 0
      ensures pageSize == ps && Valid() && blocks == map[] && pages == map[]
    {
      pageSize := ps;
      pages, blocks := map[], map[];
    }

    ghost predicate Valid()
      reads this
    {
      pageSize > 0 && Disjoint(blocks) && Counted(pages, blocks, pageSize) && 0 !in pages
    }

    /** The run test: the first page of [base, base+len) without a descriptor. */
    method FirstMissing(base: nat, len: nat) returns (r: Option<nat>)
      requires pageSize > 0 && base % pageSize == 0 && len % pageSize == 0
      ensures r.None? ==> Described(pages, pageSize, base, len)
      ensures r.Some? ==> base <= r.value < base + len && r.value % pageSize == 0 && r.value !in pages
      ensures r.Some? ==> Described(pages, pageSize, base, r.value - base)
    {
      var j := 0;
      while j < len
        invariant 0 <= j <= len && j % pageSize == 0 && Described(pages, pageSize, base, j)
      {
        MultipleSum(base, j, pageSize);
        if base + j !in pages {
          return Some(base + j);
        }
        DescribedGrows(pages, pageSize, base, j);
        MultiplesApart(j, len, pageSize);
        MultipleSum(j, pageSize, pageSize);
        j := j + pageSize;
      }
      return None;
    }

    /** The place test inside the run at `base`: the lowest aligned free place, which may be past the last
        that fits.  Room from any address up to that one is not missed. */
    method ScanRun(base: nat, size: nat, al: nat) returns (r: Option<nat>)
      requires pageSize > 0 && Disjoint(blocks) && base % pageSize == 0 && 0 < size && 0 < al
      ensures r.Some? ==> Offered(blocks, pageSize, size, al, base, r.value)
      ensures r.Some? ==> forall b: nat :: base <= b < r.value && b % al == 0 ==> !FreeAt(blocks, b, size)
      ensures r.None? ==>
        var limit := base + (CeilTo(size, pageSize) - size);
        forall c: nat :: base <= c <= limit ==> !FreeAt(blocks, c, CeilTo(c, al) - c + size)
    {
      var limit := base + (CeilTo(size, pageSize) - size);
      var cur := base;
      while cur <= limit
        invariant base <= cur
        invariant forall b: nat :: base <= b < cur && b % al == 0 ==> !FreeAt(blocks, b, size)
        invariant forall c: nat :: base <= c < cur ==> !FreeAt(blocks, c, CeilTo(c, al) - c + size)
        decreases limit + 1 - cur
      {
        ghost var from := cur;
        if cur % al != 0 {
          cur := cur + (al - cur % al);
        }
        AlignUp(from, cur, al);
        var near := FloorKey(blocks.Keys, cur);
        if near.Some? && Overlaps(cur, size, near.value, blocks[near.value]) {
          JumpSkipsNothing(blocks, cur, size, near.value);
          JumpSkipsNoRoom(blocks, from, size, al, near.value);
          cur := near.value + blocks[near.value];
          continue;
        }
        near := FloorKey(blocks.Keys, cur + size - 1);
        if near.Some? && Overlaps(cur, size, near.value, blocks[near.value]) {
          JumpSkipsNothing(blocks, cur, size, near.value);
          JumpSkipsNoRoom(blocks, from, size, al, near.value);
          cur := near.value + blocks[near.value];
          continue;
        }
        NearestDecides(blocks, cur, size, near);
        return Some(cur);
      }
      return None;
    }

    /** The search over the described pages: a place on a run of them.  If the block stays in the run, it is
        the lowest candidate; if there is no place, there is no room anywhere. */
    method Search(size: nat, al: nat) returns (page: nat, r: Option<nat>)
      requires Valid() && 0 < size && 0 < al
      ensures r.Some? ==> page in pages && Described(pages, pageSize, page, CeilTo(size, pageSize))
      ensures r.Some? ==> Offered(blocks, pageSize, size, al, page, r.value)
      ensures r.Some? ==> forall b: nat :: page <= b < r.value && b % al == 0 ==> !FreeAt(blocks, b, size)
      ensures r.Some? ==>
        forall c: nat :: Roomy(pages, blocks, pageSize, size, al, c) ==> page <= FloorTo(c, pageSize)
      ensures r.Some? && r.value + size <= page + CeilTo(size, pageSize) ==>
        && page == FloorTo(r.value, pageSize) && Candidate(pages, blocks, pageSize, size, al, r.value)
        && forall b: nat :: b < r.value ==> !Candidate(pages, blocks, pageSize, size, al, b)
      ensures r.None? ==> forall c: nat :: !Roomy(pages, blocks, pageSize, size, al, c)
    {
      var len := CeilTo(size, pageSize);
      var it := NextKey(pages.Keys, -1);
      var contiguousBase: nat := 0;
      page := 0;
      FrontierStarts(pages, blocks, pageSize, size, al, it);
      while it.Some?
        invariant it.Some? ==> it.value in pages
        invariant Frontier(pages, blocks, pageSize, size, al, it, contiguousBase)
        decreases if it.Some? then AtLeast(pages.Keys, it.value) else {}, it.Some? && contiguousBase <= it.value
      {
        page := it.value;
        if page < contiguousBase {
          it := NextKey(pages.Keys, page);
          FrontierPasses(pages, blocks, pageSize, size, al, page, it, contiguousBase);
          continue;
        }
        var missing := FirstMissing(page, len);
        if missing.Some? {
          contiguousBase := missing.value;
          it := FloorKey(pages.Keys, contiguousBase);
          FrontierJumps(pages, blocks, pageSize, size, al, page, it, contiguousBase);
          continue;
        }
        r := ScanRun(page, size, al);
        if r.Some? {
          if r.value + size <= page + len {
            FirstInRun(pages, blocks, pageSize, size, al, page, r.value);
          }
          return;
        }
        NoneInRun(pages, blocks, pageSize, size, al, page);
        it := NextKey(pages.Keys, page);
        FrontierPasses(pages, blocks, pageSize, size, al, page, it, contiguousBase);
      }
      r := None;
    }

    /** Counts up the pages of the run [r, r+len). */
    method CountUpRun(r: nat, len: nat)
      requires pageSize > 0 && r % pageSize == 0 && len % pageSize == 0 && Described(pages, pageSize, r, len)
      requires forall p <- pages :: p % pageSize == 0
      modifies this`pages
      ensures pages == CountUp(old(pages), r, len)
    {
      var j := 0;
      while j < len
        invariant 0 <= j <= len && j % pageSize == 0 && pages == CountUp(old(pages), r, j)
      {
        MultipleSum(r, j, pageSize);
        CountUpStep(old(pages), pageSize, r, j);
        pages := pages[r + j := pages[r + j] + 1];
        MultiplesApart(j, len, pageSize);
        MultipleSum(j, pageSize, pageSize);
        j := j + pageSize;
      }
    }

    /** Describes the fresh pages under [base, base+size), one reference each; when the
        descriptors run out, the ones made are taken back. */
    method DescribeFresh(base: nat, size: nat, descs: nat) returns (ok: bool)
      requires pageSize > 0 && base % pageSize == 0
      requires forall p: nat :: p % pageSize == 0 && base <= p < base + CeilTo(size, pageSize) ==> p !in pages
      modifies this`pages
      ensures ok <==> CeilTo(size, pageSize) <= descs * pageSize
      ensures !ok ==> pages == old(pages)
      ensures ok ==> pages == old(pages) + FreshPages(pageSize, base, CeilTo(size, pageSize))
    {
      var i, used := 0, 0;
      while i < size
        invariant 0 <= i <= CeilTo(size, pageSize) && i == used * pageSize && used <= descs
        invariant pages == old(pages) + FreshPages(pageSize, base, i)
      {
        MultipleMod(pageSize, used);
        MultipleSum(base, i, pageSize);
        MultiplesApart(i, CeilTo(size, pageSize), pageSize);
        if used == descs {
          Undescribe(base, i, old(pages));
          return false;
        }
        FreshStep(pageSize, base, i);
        pages := pages[base + i := 1];
        used, i := used + 1, i + pageSize;
      }
      MultipleMod(pageSize, used);
      CeilUnique(size, pageSize, i);
      MulMonotone(used, descs, pageSize);
      return true;
    }

    /** The scope guard: takes back the descriptors of [base, base+len). */
    method Undescribe(base: nat, len: nat, ghost was: Pages)
      requires pageSize > 0 && base % pageSize == 0 && len % pageSize == 0
      requires pages == was + FreshPages(pageSize, base, len) && was.Keys !! FreshPages(pageSize, base, len).Keys
      modifies this`pages
      ensures pages == was
    {
      hide FreshPages;
      var j := 0;
      UndescribeStart(was, pageSize, base, len);
      while j < len
        invariant 0 <= j <= len && j % pageSize == 0 && pages == Remaining(was, pageSize, base, len, j)
      {
        UndescribeStep(was, pageSize, base, len, j);
        pages := pages - {base + j};
        MultiplesApart(j, len, pageSize);
        MultipleSum(j, pageSize, pageSize);
        j := j + pageSize;
      }
      UndescribeEnd(was, pageSize, base, len);
    }

    /** The region handed out for a request covers it and has no described page. */
    ghost predicate Fresh(region: nat, size: nat, al: nat)
      requires pageSize > 0
      reads this
    {
      region > 0 && region % pageSize == 0 &&
      forall p: nat :: p % pageSize == 0 && region <= p < region + CeilTo(size + al, pageSize) ==> p !in pages
    }

    /** `kima_alloc`.  A null result, 0, leaves the pool as it was.  `run` is the page from which on the
        described pages were counted up, when the block was placed on such pages.  Blocks stay disjoint;
        the pool stays valid unless the block leaves the run, which it never does if `Fits`.  Then it is
        placed at the lowest candidate, and fresh pages are used exactly when there is none. */
    method Alloc(size: nat, al: nat, env: Env) returns (ptr: nat, ghost run: Option<nat>)
      requires Valid() && 0 < size && 0 < al && pageSize % al == 0
      requires env.region != 0 ==> Fresh(env.region, size, al)
      modifies this
      ensures ptr == 0 ==> pages == old(pages) && blocks == old(blocks) && run == None
      ensures ptr != 0 ==> blocks == old(blocks)[ptr := size] && ptr % al == 0 && FreeAt(old(blocks), ptr, size)
      ensures Disjoint(blocks) && 0 !in pages
      ensures Valid() <==> run.None? || ptr + size <= run.value + CeilTo(size, pageSize)
      ensures run.Some? ==>
        && run.value in old(pages) && Offered(old(blocks), pageSize, size, al, run.value, ptr)
        && Described(old(pages), pageSize, run.value, CeilTo(size, pageSize))
        && pages == CountUp(old(pages), run.value, CeilTo(size, pageSize))
      ensures run.Some? ==> forall b: nat :: run.value <= b < ptr && b % al == 0 ==> !FreeAt(old(blocks), b, size)
      ensures run.Some? ==>
        forall c: nat :: Roomy(old(pages), old(blocks), pageSize, size, al, c) ==> run.value <= FloorTo(c, pageSize)
      ensures run.None? && ptr != 0 ==> ptr == env.region
      ensures ptr == 0 ==> !env.blockDesc || env.region == 0 || env.pageDescs * pageSize < CeilTo(size, pageSize)
      ensures !env.blockDesc ==> ptr == 0
      ensures run.None? && ptr != 0 ==> CeilTo(size, pageSize) <= env.pageDescs * pageSize
      ensures run.None? && ptr != 0 ==> forall c: nat :: !Roomy(old(pages), old(blocks), pageSize, size, al, c)
      ensures (exists c: nat :: Roomy(old(pages), old(blocks), pageSize, size, al, c)) ==>
        (ptr != 0 <==> env.blockDesc)
      ensures Fits(pageSize, size, al) ==> Valid()
      ensures Fits(pageSize, size, al) && ptr != 0 ==>
        Described(pages, pageSize, FloorTo(ptr, pageSize), CeilTo(ptr + size, pageSize) - FloorTo(ptr, pageSize))
      ensures Fits(pageSize, size, al) ==>
        Placed(old(pages), old(blocks), pageSize, size, al, env, ptr)
    {
      hide Candidate, Offered, Roomy, Placed, Counted, Disjoint, Described, FreeAt, CountUp, CeilTo, FloorTo;
      var page, at := Search(size, al);
      if at.Some? {
        OfferedFits(pages, blocks, pageSize, size, al, page, at.value);
        PlacedAt(pages, blocks, pageSize, size, al, page, at.value, env);
        if !env.blockDesc {
          return 0, None;
        }
        ptr := at.value;
        run := Some(page);
        PlaceIn(page, ptr, size, al);
        return;
      }
      NoRoom(pages, blocks, pageSize, size, al, env);
      if env.region == 0 {
        return 0, None;
      }
      ptr := PlaceFresh(env.region, size, al, env);
      run := None;
    }

    /** The block goes to a place of a run, whose pages are counted up. */
    method PlaceIn(page: nat, b: nat, size: nat, al: nat)
      requires Valid() && 0 < size && 0 < al && page in pages && pageSize % al == 0
      requires Described(pages, pageSize, page, CeilTo(size, pageSize)) && Offered(blocks, pageSize, size, al, page, b)
      modifies this
      ensures blocks == old(blocks)[b := size] && b != 0 && Disjoint(blocks) && 0 !in pages
      ensures pages == CountUp(old(pages), page, CeilTo(size, pageSize))
      ensures Valid() <==> b + size <= page + CeilTo(size, pageSize)
      ensures Valid() ==>
        page == FloorTo(b, pageSize) && Described(pages, pageSize, page, CeilTo(b + size, pageSize) - page)
    {
      FreeIsNew(blocks, b, size);
      if b + size <= page + CeilTo(size, pageSize) {
        FloorUnique(b, pageSize, page);
        PlacedCounted(pages, blocks, pageSize, b, size);
        CountedUpAsDown(b, size, pageSize);
      } else {
        SpilledMiscounts(pages, blocks, pageSize, size, al, page, b);
      }
      blocks := blocks[b := size];
      CountUpRun(page, CeilTo(size, pageSize));
    }

    /** The block goes to the start of a fresh region. */
    method PlaceFresh(region: nat, size: nat, al: nat, env: Env) returns (ptr: nat)
      requires Valid() && 0 < size && 0 < al && pageSize % al == 0 && Fresh(region, size, al)
      modifies this
      ensures Valid()
      ensures ptr == (if CeilTo(size, pageSize) <= env.pageDescs * pageSize && env.blockDesc then region else 0)
      ensures ptr == 0 ==> pages == old(pages) && blocks == old(blocks)
      ensures ptr != 0 ==> blocks == old(blocks)[ptr := size] && ptr % al == 0 && FreeAt(old(blocks), ptr, size)
      ensures ptr != 0 ==>
        Described(pages, pageSize, FloorTo(ptr, pageSize), CeilTo(ptr + size, pageSize) - FloorTo(ptr, pageSize))
    {
      hide Counted, Disjoint, Described, FreeAt, FreshPages;
      FreshRegion(pages, blocks, pageSize, region, size, al);
      var ok := DescribeFresh(region, size, env.pageDescs);
      if !ok {
        return 0;
      }
      if !env.blockDesc {
        Undescribe(region, CeilTo(size, pageSize), old(pages));
        return 0;
      }
      blocks := blocks[region := size];
      return region;
    }

    /** Counts down the pages of [lo, hi), dropping descriptors without references. */
    method CountDownRun(lo: nat, hi: nat)
      requires pageSize > 0 && lo <= hi && lo % pageSize == 0 && hi % pageSize == 0
      requires forall p <- pages :: p % pageSize == 0 && 0 < pages[p]
      requires Described(pages, pageSize, lo, hi - lo)
      modifies this`pages
      ensures pages == CountDown(old(pages), lo, hi)
    {
      var i := lo;
      while i < hi
        invariant lo <= i <= hi && i % pageSize == 0 && pages == CountDown(old(pages), lo, i)
      {
        CountDownStep(old(pages), pageSize, lo, i);
        if pages[i] == 1 {
          pages := pages - {i};
        } else {
          pages := pages[i := pages[i] - 1];
        }
        MultiplesApart(i, hi, pageSize);
        MultipleSum(i, pageSize, pageSize);
        i := i + pageSize;
      }
    }

    /** `kima_free`. */
    method Free(ptr: nat)
      requires Valid() && ptr in blocks
      modifies this
      ensures Valid() && blocks == old(blocks) - {ptr}
      ensures pages == CountDown(old(pages), FloorTo(ptr, pageSize), CeilTo(ptr + old(blocks)[ptr], pageSize))
    {
      var lo, hi := FloorTo(ptr, pageSize), CeilTo(ptr + blocks[ptr], pageSize);
      FreedCounted(pages, blocks, pageSize, ptr);
      BlockPagesDescribed(pages, blocks, pageSize, ptr);
      CountDownRun(lo, hi);
      blocks := blocks - {ptr};
    }
  }

  lemma CeilMonotone(x: nat, y: nat, a: nat)
    requires a > 0 && x <= y
    ensures CeilTo(x, a) <= CeilTo(y, a)
  {
    if CeilTo(y, a) < CeilTo(x, a) {
      MultiplesApart(CeilTo(y, a), CeilTo(x, a), a);
    }
  }

  /** A block that overlaps [b, b+size) touches one of its pages. */
  lemma OverlapPage(bs: Blocks, ps: nat, b: nat, size: nat, x: nat) returns (p: nat)
    requires ps > 0 && size > 0 && b % ps == 0 && x in bs && 0 < bs[x] && Overlaps(b, size, x, bs[x])
    ensures p % ps == 0 && b <= p < b + CeilTo(size, ps) && x in Touching(bs, ps, p)
  {
    var a := if x < b then b else x;
    p := FloorTo(a, ps);
    if p < b {
      MultiplesApart(p, b, ps);
    }
  }

  /** No block reaches into a region without described pages. */
  lemma FreshIsFree(pages: Pages, bs: Blocks, ps: nat, b: nat, size: nat)
    requires ps > 0 && size > 0 && b % ps == 0 && Disjoint(bs) && Counted(pages, bs, ps)
    requires forall p: nat :: p % ps == 0 && b <= p < b + CeilTo(size, ps) ==> p !in pages
    ensures FreeAt(bs, b, size)
  {
    forall x | x in bs
      ensures !Overlaps(b, size, x, bs[x])
    {
      if Overlaps(b, size, x, bs[x]) {
        var p := OverlapPage(bs, ps, b, size, x);
        assert false;
      }
    }
  }

  /** Placing a block at the start of a fresh region keeps everything right. */
  lemma FreshRegion(pages: Pages, bs: Blocks, ps: nat, region: nat, size: nat, al: nat)
    requires ps > 0 && al > 0 && size > 0 && region % ps == 0 && ps % al == 0
    requires Disjoint(bs) && Counted(pages, bs, ps) && 0 !in pages && region > 0
    requires forall p: nat :: p % ps == 0 && region <= p < region + CeilTo(size + al, ps) ==> p !in pages
    ensures region % al == 0 && FreeAt(bs, region, size) && Disjoint(bs[region := size])
    ensures forall p: nat :: p % ps == 0 && region <= p < region + CeilTo(size, ps) ==> p !in pages
    ensures var pages' := pages + FreshPages(ps, region, CeilTo(size, ps));
      && pages.Keys !! FreshPages(ps, region, CeilTo(size, ps)).Keys
      && Counted(pages', bs[region := size], ps) && 0 !in pages'
      && Described(pages', ps, FloorTo(region, ps), CeilTo(region + size, ps) - FloorTo(region, ps))
  {
    CeilMonotone(size, size + al, ps);
    FreshIsFree(pages, bs, ps, region, size);
    FreeIsNew(bs, region, size);
    FloorUnique(region, ps, region);
    CountedUpAsDown(region, size, ps);
    MultipleTrans(region, ps, al);
    FreshCounted(pages, bs, ps, region, size);
  }

  lemma BlockPagesDescribed(pages: Pages, bs: Blocks, ps: nat, b: nat)
    requires ps > 0 && b in bs && 0 < bs[b] && Counted(pages, bs, ps)
    ensures FloorTo(b, ps) <= CeilTo(b + bs[b], ps)
    ensures Described(pages, ps, FloorTo(b, ps), CeilTo(b + bs[b], ps) - FloorTo(b, ps))
  {
    forall p: nat | p % ps == 0 && FloorTo(b, ps) <= p < CeilTo(b + bs[b], ps)
      ensures p in pages
    {
      TouchedPages(b, bs[b], ps, p);
      assert b in Touching(bs, ps, p);
    }
  }

  lemma CountDownStep(pages: Pages, ps: nat, lo: nat, i: nat)
    requires ps > 0 && lo <= i && i % ps == 0 && i in pages && 0 < pages[i] && forall p <- pages :: p % ps == 0
    ensures var m := CountDown(pages, lo, i);
      && i in m && m[i] == pages[i]
      && CountDown(pages, lo, i + ps) == if m[i] == 1 then m - {i} else m[i := m[i] - 1]
  {
    forall p | p in pages && i < p
      ensures i + ps <= p
    {
      MultiplesApart(i, p, ps);
    }
  }

  /** The descriptors when those of [base, base+j) are taken back from [base, base+len). */
  ghost function Remaining(was: Pages, ps: nat, base: nat, len: nat, j: nat): Pages
    requires ps > 0
  {
    was + (FreshPages(ps, base, len) - FreshPages(ps, base, j).Keys)
  }

  lemma UndescribeStart(was: Pages, ps: nat, base: nat, len: nat)
    requires ps > 0
    ensures Remaining(was, ps, base, len, 0) == was + FreshPages(ps, base, len)
  {
  }

  lemma UndescribeStep(was: Pages, ps: nat, base: nat, len: nat, j: nat)
    requires ps > 0 && base % ps == 0 && j % ps == 0 && j < len && was.Keys !! FreshPages(ps, base, len).Keys
    ensures Remaining(was, ps, base, len, j + ps) == Remaining(was, ps, base, len, j) - {base + j}
  {
    FreshStep(ps, base, j);
    MultipleSum(base, j, ps);
    assert base + j in FreshPages(ps, base, len);
  }

  lemma UndescribeEnd(was: Pages, ps: nat, base: nat, len: nat)
    requires ps > 0
    ensures Remaining(was, ps, base, len, len) == was
  {
  }

  lemma FreshStep(ps: nat, base: nat, j: nat)
    requires ps > 0 && base % ps == 0 && j % ps == 0
    ensures FreshPages(ps, base, j + ps) == FreshPages(ps, base, j)[base + j := 1]
  {
    MultipleSum(base, j, ps);
    forall p: nat | base + j < p && p % ps == 0
      ensures base + j + ps <= p
    {
      MultiplesApart(base + j, p, ps);
    }
  }

  lemma CountUpStep(pages: Pages, ps: nat, r: nat, j: nat)
    requires ps > 0 && r % ps == 0 && j % ps == 0 && r + j in pages && forall p <- pages :: p % ps == 0
    ensures var m := CountUp(pages, r, j);
      r + j in m && CountUp(pages, r, j + ps) == m[r + j := m[r + j] + 1]
  {
    MultipleSum(r, j, ps);
    forall p | p in pages && r + j < p
      ensures r + j + ps <= p
    {
      MultiplesApart(r + j, p, ps);
    }
  }

  ghost function AtLeast(keys: set<nat>, k: nat): set<nat> {
    set x | x in keys && k <= x
  }

  /** Every candidate lies on a page that the search has still to visit. */
  ghost predicate Frontier(pages: Pages, bs: Blocks, ps: nat, size: nat, al: nat, it: Option<nat>, low: nat)
    requires ps > 0 && al > 0
  {
    forall b: nat :: Roomy(pages, bs, ps, size, al, b) ==>
      it.Some? && it.value <= FloorTo(b, ps) && low <= FloorTo(b, ps)
  }

  lemma RoomyPage(pages: Pages, bs: Blocks, ps: nat, size: nat, al: nat, b: nat)
    requires ps > 0 && al > 0 && size > 0 && Roomy(pages, bs, ps, size, al, b)
    ensures FloorTo(b, ps) in pages
  {
  }

  lemma CandidatePage(pages: Pages, bs: Blocks, ps: nat, size: nat, al: nat, b: nat)
    requires ps > 0 && al > 0 && size > 0 && Candidate(pages, bs, ps, size, al, b)
    ensures FloorTo(b, ps) in pages
  {
  }

  lemma CandidateIsRoomy(pages: Pages, bs: Blocks, ps: nat, size: nat, al: nat, b: nat)
    requires ps > 0 && al > 0 && Candidate(pages, bs, ps, size, al, b)
    ensures Roomy(pages, bs, ps, size, al, b)
  {
    CeilUnique(b, al, b);
  }

  lemma FrontierStarts(pages: Pages, bs: Blocks, ps: nat, size: nat, al: nat, it: Option<nat>)
    requires ps > 0 && al > 0 && size > 0
    requires it.None? <==> forall x <- pages.Keys :: x <= -1
    requires it.Some? ==> IsNext(pages.Keys, -1, it.value)
    ensures Frontier(pages, bs, ps, size, al, it, 0)
  {
    forall b: nat | Roomy(pages, bs, ps, size, al, b)
      ensures it.Some? && it.value <= FloorTo(b, ps)
    {
      RoomyPage(pages, bs, ps, size, al, b);
    }
  }

  /** No candidate is left on `page`, so the next page is reached. */
  lemma FrontierPasses(pages: Pages, bs: Blocks, ps: nat, size: nat, al: nat, page: nat, it: Option<nat>, low: nat)
    requires ps > 0 && al > 0 && size > 0
    requires Frontier(pages, bs, ps, size, al, Some(page), low)
    requires page < low || forall b: nat :: Roomy(pages, bs, ps, size, al, b) ==> FloorTo(b, ps) != page
    requires it.None? <==> forall x <- pages.Keys :: x <= page
    requires it.Some? ==> IsNext(pages.Keys, page, it.value)
    ensures Frontier(pages, bs, ps, size, al, it, low)
    ensures page in pages ==> (if it.Some? then AtLeast(pages.Keys, it.value) else {}) < AtLeast(pages.Keys, page)
  {
    forall b: nat | Roomy(pages, bs, ps, size, al, b)
      ensures it.Some? && it.value <= FloorTo(b, ps)
    {
      RoomyPage(pages, bs, ps, size, al, b);
    }
    assert page in pages ==> page in AtLeast(pages.Keys, page);
  }

  /** A gap inside the run of `page` rules out every run that starts from `page` up to the gap. */
  lemma FrontierJumps(pages: Pages, bs: Blocks, ps: nat, size: nat, al: nat, page: nat, it: Option<nat>, gap: nat)
    requires ps > 0 && al > 0 && size > 0 && page in pages && gap !in pages && gap % ps == 0
    requires page <= gap < page + CeilTo(size, ps)
    requires Frontier(pages, bs, ps, size, al, Some(page), 0)
    requires it.None? <==> forall x <- pages.Keys :: gap < x
    requires it.Some? ==> IsFloor(pages.Keys, gap, it.value)
    ensures it.Some? && page <= it.value < gap && Frontier(pages, bs, ps, size, al, it, gap)
    ensures AtLeast(pages.Keys, it.value) <= AtLeast(pages.Keys, page)
  {
    assert page in pages.Keys;
    forall b: nat | Roomy(pages, bs, ps, size, al, b)
      ensures gap < FloorTo(b, ps)
    {
      var r := FloorTo(b, ps);
      assert r <= gap ==> r <= gap < r + CeilTo(size, ps);
    }
  }

  lemma NoneInRun(pages: Pages, bs: Blocks, ps: nat, size: nat, al: nat, page: nat)
    requires ps > 0 && al > 0 && size > 0
    requires forall c: nat :: page <= c <= page + (CeilTo(size, ps) - size) ==> !FreeAt(bs, c, CeilTo(c, al) - c + size)
    ensures forall c: nat :: Roomy(pages, bs, ps, size, al, c) ==> FloorTo(c, ps) != page
  {
  }

  lemma FirstInRun(pages: Pages, bs: Blocks, ps: nat, size: nat, al: nat, page: nat, b: nat)
    requires ps > 0 && al > 0 && size > 0 && page % ps == 0
    requires page <= b && b + size <= page + CeilTo(size, ps) && b % al == 0 && FreeAt(bs, b, size)
    requires Described(pages, ps, page, CeilTo(size, ps))
    requires forall x: nat :: page <= x < b && x % al == 0 ==> !FreeAt(bs, x, size)
    requires Frontier(pages, bs, ps, size, al, Some(page), 0)
    ensures FloorTo(b, ps) == page && Candidate(pages, bs, ps, size, al, b)
    ensures forall x: nat :: x < b ==> !Candidate(pages, bs, ps, size, al, x)
  {
    FloorUnique(b, ps, page);
    forall x: nat | x < b
      ensures !Candidate(pages, bs, ps, size, al, x)
    {
      if Candidate(pages, bs, ps, size, al, x) {
        CandidateIsRoomy(pages, bs, ps, size, al, x);
      }
    }
  }

  /** Jumping to the end of a block that overlaps the rounded place skips no room. */
  lemma JumpSkipsNoRoom(bs: Blocks, from: nat, size: nat, al: nat, x: nat)
    requires al > 0 && x in bs && Overlaps(CeilTo(from, al), size, x, bs[x])
    ensures forall c: nat :: from <= c < x + bs[x] ==> !FreeAt(bs, c, CeilTo(c, al) - c + size)
  {
    forall c: nat | from <= c < x + bs[x]
      ensures Overlaps(c, CeilTo(c, al) - c + size, x, bs[x])
    {
      CeilMonotone(from, c, al);
    }
  }

  // ------------------------------------------------------------------ leaving the run

  /** An offered place is at most the end of the run. */
  lemma OfferedBelow(bs: Blocks, ps: nat, size: nat, al: nat, page: nat, b: nat)
    requires ps > 0 && al > 0 && ps % al == 0 && page % ps == 0 && 0 < size && Offered(bs, ps, size, al, page, b)
    ensures b <= page + CeilTo(size, ps) && b <= page + ps
    ensures size % al == 0 ==> b + size <= page + CeilTo(size, ps)
  {
    var len := CeilTo(size, ps);
    MultipleTrans(page, ps, al);
    MultipleTrans(len, ps, al);
    MultipleSum(page, len, al);
    MultipleSum(page, ps, al);
    if page + len < b {
      MultiplesApart(page + len, b, al);
    }
    if page + ps < b {
      MultiplesApart(page + ps, b, al);
    }
    if size % al == 0 && page + len < b + size {
      MultipleSum(b, size, al);
      MultiplesApart(page + len, b + size, al);
    }
  }

  /** In a sound pool a block that fits stays in its run: a larger one that left it would have a page
      inside it, which would not be described. */
  lemma OfferedFits(pages: Pages, bs: Blocks, ps: nat, size: nat, al: nat, page: nat, b: nat)
    requires ps > 0 && al > 0 && ps % al == 0 && 0 < size && Counted(pages, bs, ps) && page in pages
    requires Described(pages, ps, page, CeilTo(size, ps)) && Offered(bs, ps, size, al, page, b)
    ensures Fits(ps, size, al) ==> b + size <= page + CeilTo(size, ps)
  {
    OfferedBelow(bs, ps, size, al, page, b);
    if ps < size && page + CeilTo(size, ps) < b + size {
      MultipleMod(ps, 1);
      MultiplesApart(ps, CeilTo(size, ps), ps);
      MultipleSum(page, ps, ps);
      InsideUntouched(bs, ps, size, b, page + ps);
      assert false;
    }
  }

  /** A block that leaves its run touches the page after it, which is not counted up. */
  lemma SpilledMiscounts(pages: Pages, bs: Blocks, ps: nat, size: nat, al: nat, page: nat, b: nat)
    requires ps > 0 && al > 0 && ps % al == 0 && 0 < size && Counted(pages, bs, ps) && page in pages && b !in bs
    requires Offered(bs, ps, size, al, page, b) && page + CeilTo(size, ps) < b + size
    ensures !Counted(CountUp(pages, page, CeilTo(size, ps)), bs[b := size], ps)
  {
    var p := page + CeilTo(size, ps);
    OfferedBelow(bs, ps, size, al, page, b);
    MultipleSum(page, CeilTo(size, ps), ps);
    TouchedPages(b, size, ps, p);
    GrowsAt(bs, ps, b, size, p);
    assert b in Touching(bs[b := size], ps, p);
  }

  /** Where a request is placed: at the lowest candidate, or if there is none on a fresh region. */
  ghost predicate Placed(pages: Pages, bs: Blocks, ps: nat, size: nat, al: nat, env: Env, ptr: nat)
    requires ps > 0 && al > 0
  {
    if exists b: nat :: Candidate(pages, bs, ps, size, al, b) then
      if env.blockDesc then
        && ptr != 0 && Candidate(pages, bs, ps, size, al, ptr)
        && forall b: nat :: b < ptr ==> !Candidate(pages, bs, ps, size, al, b)
      else
        ptr == 0
    else
      ptr == if CeilTo(size, ps) <= env.pageDescs * ps && env.blockDesc then env.region else 0
  }

  lemma PlacedAt(pages: Pages, bs: Blocks, ps: nat, size: nat, al: nat, page: nat, b: nat, env: Env)
    requires ps > 0 && al > 0 && b != 0
    ensures
      var lowest := forall x: nat :: x < b ==> !Candidate(pages, bs, ps, size, al, x);
      Candidate(pages, bs, ps, size, al, b) && lowest ==>
      Placed(pages, bs, ps, size, al, env, if env.blockDesc then b else 0)
  {
  }

  lemma FreshPlaced(pages: Pages, bs: Blocks, ps: nat, size: nat, al: nat, env: Env, ptr: nat)
    requires ps > 0 && al > 0 && Placed(pages, bs, ps, size, al, env, ptr)
    requires forall b: nat :: !Candidate(pages, bs, ps, size, al, b)
    ensures ptr == if CeilTo(size, ps) <= env.pageDescs * ps && env.blockDesc then env.region else 0
  {
  }

  lemma NoRoom(pages: Pages, bs: Blocks, ps: nat, size: nat, al: nat, env: Env)
    requires ps > 0 && al > 0 && forall c: nat :: !Roomy(pages, bs, ps, size, al, c)
    ensures
      var ptr := if CeilTo(size, ps) <= env.pageDescs * ps && env.blockDesc then env.region else 0;
      Placed(pages, bs, ps, size, al, env, ptr)
  {
    forall b: nat
      ensures !Candidate(pages, bs, ps, size, al, b)
    {
      if Candidate(pages, bs, ps, size, al, b) {
        CandidateIsRoomy(pages, bs, ps, size, al, b);
      }
    }
  }

  lemma DescribedGrows(pages: Pages, ps: nat, base: nat, j: nat)
    requires ps > 0 && base % ps == 0 && j % ps == 0 && Described(pages, ps, base, j) && base + j in pages
    ensures Described(pages, ps, base, j + ps)
  {
    MultipleSum(base, j, ps);
    forall p: nat | base <= p < base + (j + ps) && p % ps == 0
      ensures p in pages
    {
      if base + j < p {
        MultiplesApart(base + j, p, ps);
      }
    }
  }

  lemma LimitAligned(base: nat, size: nat, ps: nat, al: nat)
    requires ps > 0 && al > 0 && base % ps == 0 && ps % al == 0 && size % al == 0
    ensures (base + (CeilTo(size, ps) - size)) % al == 0
  {
    MultipleTrans(base, ps, al);
    MultipleTrans(CeilTo(size, ps), ps, al);
    MultipleSum(CeilTo(size, ps), size, al);
    MultipleSum(base, CeilTo(size, ps) - size, al);
  }

  /** Rounding up to the alignment, as the scan does it. */
  lemma AlignUp(from: nat, cur: nat, al: nat)
    requires al > 0 && cur == if from % al != 0 then from + (al - from % al) else from
    ensures cur == CeilTo(from, al) && from <= cur < from + al && cur % al == 0
    ensures forall b: nat :: from <= b < cur ==> b % al != 0
  {
    if from % al != 0 {
      DivModUnique(cur, al, from / al + 1, 0);
      var f := FloorTo(from, al);
      forall b: nat | from <= b < cur
        ensures b % al != 0
      {
        if b % al == 0 {
          MultiplesApart(f, b, al);
        }
      }
    }
    CeilUnique(from, al, cur);
  }

  // ------------------------------------------------------------------ what the search finds, exactly

  /** A place where a block could be put without any new page: aligned, free, and with every
      page under it described. */
  ghost predicate Usable(pages: Pages, bs: Blocks, ps: nat, size: nat, al: nat, b: nat)
    requires ps > 0 && al > 0
  {
    && b % al == 0 && FreeAt(bs, b, size)
    && Described(pages, ps, FloorTo(b, ps), CeilTo(b + size, ps) - FloorTo(b, ps))
  }

  /** The block would lie on one page more than its size alone needs. */
  predicate Straddles(ps: nat, size: nat, b: nat)
    requires ps > 0
  {
    b % ps + size > CeilTo(size, ps)
  }

  /** The search considers exactly the usable places that do not straddle an extra page. */
  lemma CandidateIff(pages: Pages, bs: Blocks, ps: nat, size: nat, al: nat, b: nat)
    requires ps > 0 && al > 0 && size > 0
    ensures Candidate(pages, bs, ps, size, al, b) <==> Usable(pages, bs, ps, size, al, b) && !Straddles(ps, size, b)
  {
    var r := FloorTo(b, ps);
    if b + size <= r + CeilTo(size, ps) {
      CountedUpAsDown(b, size, ps);
    }
  }

  /** So fresh pages are asked for exactly when every usable place straddles. */
  lemma FreshPagesIff(pages: Pages, bs: Blocks, ps: nat, size: nat, al: nat)
    requires ps > 0 && al > 0 && size > 0
    ensures (forall b: nat :: !Candidate(pages, bs, ps, size, al, b))
       <==> (forall b: nat :: Usable(pages, bs, ps, size, al, b) ==> Straddles(ps, size, b))
  {
    forall b: nat
      ensures Candidate(pages, bs, ps, size, al, b) <==> Usable(pages, bs, ps, size, al, b) && !Straddles(ps, size, b)
    {
      CandidateIff(pages, bs, ps, size, al, b);
    }
  }

  // ------------------------------------------------------------------ when first-fit is complete

  /** What `Pool.Valid` says. */
  ghost predicate Sound(pages: Pages, bs: Blocks, ps: nat)
    requires ps > 0
  {
    Disjoint(bs) && Counted(pages, bs, ps) && 0 !in pages
  }

  lemma InsideUntouched(bs: Blocks, ps: nat, size: nat, b: nat, p: nat)
    requires FreeAt(bs, b, size) && b <= p && p + ps <= b + size
    ensures Touching(bs, ps, p) == {}
  {
  }

  /** A usable place has no page inside it: such a page would have no block to be described for. */
  lemma NoPageInside(pages: Pages, bs: Blocks, ps: nat, size: nat, al: nat, b: nat, p: nat)
    requires ps > 0 && al > 0 && size > 0 && Sound(pages, bs, ps) && Usable(pages, bs, ps, size, al, b)
    requires p % ps == 0
    ensures !(b <= p && p + ps <= b + size)
  {
    if b <= p && p + ps <= b + size {
      TouchedPages(b, size, ps, p);
      InsideUntouched(bs, ps, size, b, p);
      assert false;
    }
  }

  /** Where no usable place straddles: a block as large as its alignment never does, and a place that
      straddles for more than a page would have a page inside it. */
  lemma UsableFits(pages: Pages, bs: Blocks, ps: nat, size: nat, al: nat, b: nat)
    requires ps > 0 && al > 0 && size > 0 && ps % al == 0 && size % al == 0 && (ps < size || size == al)
    requires Sound(pages, bs, ps) && Usable(pages, bs, ps, size, al, b)
    ensures !Straddles(ps, size, b)
  {
    var r := FloorTo(b, ps);
    if size == al {
      MultipleTrans(r, ps, al);
      MultipleSum(r, ps, al);
      MultiplesApart(b, r + ps, al);
      MultiplesApart(0, CeilTo(size, ps), ps);
    } else if Straddles(ps, size, b) {
      MultipleSum(r, ps, ps);
      MultiplesApart(ps, CeilTo(size, ps), ps);
      NoPageInside(pages, bs, ps, size, al, b, r + ps);
      assert false;
    }
  }

  /** Otherwise two pages with free space across their border, and nowhere else. */
  ghost function MissedPages(ps: nat): Pages {
    map[ps := 1, 2 * ps := 1]
  }

  ghost function MissedBlocks(ps: nat, size: nat, al: nat): Blocks
    requires al < size <= ps
  {
    map[ps := ps - al, 2 * ps + (size - al) := ps - (size - al)]
  }

  lemma MissedSound(ps: nat, size: nat, al: nat)
    requires 0 < al < size <= ps
    ensures Sound(MissedPages(ps), MissedBlocks(ps, size, al), ps)
  {
    var bs, q := MissedBlocks(ps, size, al), 2 * ps + (size - al);
    MultipleMod(ps, 1);
    MultipleMod(ps, 2);
    assert Touching(bs, ps, ps) == {ps};
    assert Touching(bs, ps, 2 * ps) == {q};
    forall p: nat | p % ps == 0 && Touching(bs, ps, p) != {}
      ensures p in MissedPages(ps)
    {
      var x :| x in Touching(bs, ps, p);
      if p < ps {
        MultiplesApart(p, ps, ps);
      } else if ps < p < 2 * ps {
        MultiplesApart(ps, p, ps);
      } else if 2 * ps < p {
        MultiplesApart(2 * ps, p, ps);
      }
    }
  }

  lemma MissedIsUsable(ps: nat, size: nat, al: nat)
    requires 0 < al < size <= ps && ps % al == 0
    ensures Usable(MissedPages(ps), MissedBlocks(ps, size, al), ps, size, al, 2 * ps - al)
  {
    var b := 2 * ps - al;
    MultipleMod(ps, 1);
    MultipleMod(ps, 2);
    MultipleMod(ps, 3);
    MultipleTrans(2 * ps, ps, al);
    MultipleMod(al, 1);
    MultipleSum(2 * ps, al, al);
    FloorUnique(b, ps, ps);
    CeilUnique(b + size, ps, 3 * ps);
    forall p: nat | ps <= p < 3 * ps && p % ps == 0
      ensures p in MissedPages(ps)
    {
      if ps < p < 2 * ps {
        MultiplesApart(ps, p, ps);
      } else if 2 * ps < p {
        MultiplesApart(2 * ps, p, ps);
      }
    }
  }

  lemma Beside(bs: Blocks, b: nat, size: nat, x: nat)
    requires FreeAt(bs, b, size) && x in bs
    ensures b + size <= x || x + bs[x] <= b
  {
  }

  lemma MissedNoCandidate(ps: nat, size: nat, al: nat, b: nat)
    requires 0 < al < size <= ps
    ensures !Candidate(MissedPages(ps), MissedBlocks(ps, size, al), ps, size, al, b)
  {
    var pages, bs := MissedPages(ps), MissedBlocks(ps, size, al);
    if Candidate(pages, bs, ps, size, al, b) {
      CandidatePage(pages, bs, ps, size, al, b);
      MultipleMod(ps, 1);
      CeilUnique(size, ps, ps);
      Beside(bs, b, size, ps);
      Beside(bs, b, size, 2 * ps + (size - al));
      assert false;
    }
  }

  /** Two blocks that fill the first page of an empty pool. */
  method FillPage(pool: Pool, gap: nat, al: nat)
    requires pool.Valid() && pool.blocks == map[] && pool.pages == map[]
    requires 0 < al && 0 < gap < pool.pageSize && pool.pageSize % al == 0 && gap % al == 0
    modifies pool
    ensures var p := 2 * pool.pageSize;
      && pool.Valid() && pool.pages.Keys == {p}
      && pool.blocks == map[p := gap, p + gap := pool.pageSize - gap]
  {
    hide Candidate, Counted, Disjoint, Described, FreeAt, CeilTo, FloorTo;
    var ps := pool.pageSize;
    var rest := ps - gap;
    MultipleSum(ps, gap, al);
    MultipleMod(ps, 1);
    MultipleMod(ps, 2);
    CeilUnique(gap, ps, ps);
    EmptyPool(ps, gap, al);
    var ptr; ghost var run;
    ptr, run := pool.Alloc(gap, al, Env(2 * ps, 1, true));
    assert pool.blocks == map[2 * ps := gap] && 2 * ps in pool.blocks;
    OnePage(pool.pages, pool.blocks, ps, 2 * ps);
    RestOfPage(pool.pages, ps, gap, rest, al);
    ptr, run := pool.Alloc(rest, al, Env(0, 0, true));
    assert 2 * ps in pool.blocks;
    OnePage(pool.pages, pool.blocks, ps, 2 * ps);
  }

  /** Every such pool is reached by four calls: two blocks fill one page, a third almost fills the page
      before it, and the first is freed again. */
  method ReachMissed(ps: nat, size: nat, al: nat) returns (pool: Pool)
    requires 0 < al < size <= ps && ps % al == 0 && size % al == 0
    ensures fresh(pool) && pool.Valid() && pool.pageSize == ps
    ensures pool.blocks == MissedBlocks(ps, size, al) && pool.pages == MissedPages(ps)
  {
    hide Candidate, Counted, Disjoint, Described, FreeAt, CeilTo, FloorTo, CountDown;
    var gap, most := size - al, ps - al;
    MultipleMod(al, 1);
    MultipleSum(size, al, al);
    MultipleSum(ps, al, al);
    MultipleMod(ps, 1);
    CeilUnique(most, ps, ps);
    CeilUnique(most + al, ps, ps);
    pool := new Pool(ps);
    FillPage(pool, gap, al);
    FullPage(pool.pages, pool.blocks, ps, gap, most, al);
    var ptr; ghost var run;
    ptr, run := pool.Alloc(most, al, Env(ps, 1, true));
    pool.Free(2 * ps);
    BlocksLeft(pool.pages, pool.blocks, ps, size, al);
  }

  lemma BlocksLeft(pages: Pages, bs: Blocks, ps: nat, size: nat, al: nat)
    requires 0 < al < size <= ps && Counted(pages, bs, ps)
    requires var gap := size - al; bs == map[2 * ps := gap, 2 * ps + gap := ps - gap][ps := ps - al] - {2 * ps}
    ensures bs == MissedBlocks(ps, size, al) && pages == MissedPages(ps)
  {
    assert bs == MissedBlocks(ps, size, al);
    MissedSound(ps, size, al);
    OneCount(pages, MissedPages(ps), bs, ps);
  }

  lemma EmptyPool(ps: nat, size: nat, al: nat)
    requires ps > 0 && al > 0 && size > 0
    ensures forall b: nat :: !Candidate(map[], map[], ps, size, al, b)
  {
    forall b: nat
      ensures !Candidate(map[], map[], ps, size, al, b)
    {
      if Candidate(map[], map[], ps, size, al, b) {
        CandidatePage(map[], map[], ps, size, al, b);
      }
    }
  }

  /** Blocks that are all on one page have that page described and no other. */
  lemma OnePage(pages: Pages, bs: Blocks, ps: nat, p: nat)
    requires ps > 0 && p % ps == 0 && Disjoint(bs) && Counted(pages, bs, ps) && (exists x :: x in bs)
    requires forall x <- bs :: p <= x && x + bs[x] <= p + ps
    ensures pages.Keys == {p}
  {
    var x :| x in bs;
    assert x in Touching(bs, ps, p);
    forall q | q in pages
      ensures q == p
    {
      assert Touching(bs, ps, q) != {};
      var y :| y in Touching(bs, ps, q);
      if q < p {
        MultiplesApart(q, p, ps);
      } else if p < q {
        MultiplesApart(p, q, ps);
      }
    }
  }

  /** On a page with a block at its start, the only place for a block of all the rest is the rest. */
  lemma RestOfPage(pages: Pages, ps: nat, gap: nat, rest: nat, al: nat)
    requires 0 < gap < ps && 0 < al && ps % al == 0 && gap % al == 0 && rest == ps - gap && pages.Keys == {2 * ps}
    ensures var bs := map[2 * ps := gap];
      && Candidate(pages, bs, ps, rest, al, 2 * ps + gap)
      && forall b: nat :: Candidate(pages, bs, ps, rest, al, b) ==> b == 2 * ps + gap
  {
    var bs: Blocks, q := map[2 * ps := gap], 2 * ps + gap;
    MultipleMod(ps, 1);
    MultipleMod(ps, 2);
    CeilUnique(rest, ps, ps);
    FloorUnique(q, ps, 2 * ps);
    MultipleTrans(2 * ps, ps, al);
    MultipleSum(2 * ps, gap, al);
    forall p: nat | 2 * ps <= p < 3 * ps && p % ps == 0
      ensures p == 2 * ps
    {
      if 2 * ps < p {
        MultiplesApart(2 * ps, p, ps);
      }
    }
    forall b: nat | Candidate(pages, bs, ps, rest, al, b)
      ensures b == q
    {
      CandidatePage(pages, bs, ps, rest, al, b);
      Beside(bs, b, rest, 2 * ps);
    }
  }

  /** A full page has no place. */
  lemma FullPage(pages: Pages, bs: Blocks, ps: nat, gap: nat, size: nat, al: nat)
    requires 0 < gap < ps && 0 < size <= ps && 0 < al && pages.Keys == {2 * ps}
    requires bs == map[2 * ps := gap, 2 * ps + gap := ps - gap]
    ensures forall b: nat :: !Candidate(pages, bs, ps, size, al, b)
  {
    forall b: nat
      ensures !Candidate(pages, bs, ps, size, al, b)
    {
      if Candidate(pages, bs, ps, size, al, b) {
        CandidatePage(pages, bs, ps, size, al, b);
        MultipleMod(ps, 1);
        CeilUnique(size, ps, ps);
        Beside(bs, b, size, 2 * ps);
        Beside(bs, b, size, 2 * ps + gap);
        assert false;
      }
    }
  }

  /** The blocks determine the page descriptors. */
  lemma OneCount(pages: Pages, pages': Pages, bs: Blocks, ps: nat)
    requires ps > 0 && Counted(pages, bs, ps) && Counted(pages', bs, ps)
    ensures pages == pages'
  {
    forall p: nat
      ensures p in pages <==> p in pages'
    {
    }
  }

  /** There the request is refused without fresh pages, although it could be placed. */
  method StraddlingPlaceIsMissed(ps: nat, size: nat, al: nat) returns (pool: Pool, ptr: nat)
    requires 0 < al < size <= ps && ps % al == 0 && size % al == 0
    ensures ptr == 0 && pool.Valid() && pool.pageSize == ps
    ensures Usable(pool.pages, pool.blocks, ps, size, al, 2 * ps - al)
  {
    hide Candidate, Usable, Counted, Disjoint, Described, FreeAt;
    pool := ReachMissed(ps, size, al);
    MissedIsUsable(ps, size, al);
    forall b: nat
      ensures !Candidate(MissedPages(ps), MissedBlocks(ps, size, al), ps, size, al, b)
    {
      MissedNoCandidate(ps, size, al, b);
    }
    ghost var run;
    ptr, run := pool.Alloc(size, al, Env(0, 0, true));
  }

  /** First-fit finds a usable place whenever there is one, in every pool, if and only if the block is
      larger than a page or as large as its alignment. */
  lemma FirstFitCompleteIff(ps: nat, size: nat, al: nat)
    requires ps > 0 && al > 0 && size > 0 && ps % al == 0 && size % al == 0
    ensures ps < size || size == al <==>
      forall pages: Pages, bs: Blocks ::
        Sound(pages, bs, ps) && (forall b: nat :: !Candidate(pages, bs, ps, size, al, b)) ==>
        forall b: nat :: !Usable(pages, bs, ps, size, al, b)
  {
    hide Sound, Candidate, Usable, Straddles;
    if ps < size || size == al {
      forall pages: Pages, bs: Blocks, b: nat | Sound(pages, bs, ps) && Usable(pages, bs, ps, size, al, b)
        ensures Candidate(pages, bs, ps, size, al, b)
      {
        UsableFits(pages, bs, ps, size, al, b);
        CandidateIff(pages, bs, ps, size, al, b);
      }
    } else {
      if size < al {
        MultiplesApart(0, size, al);
      }
      MissedSound(ps, size, al);
      MissedIsUsable(ps, size, al);
      forall b: nat
        ensures !Candidate(MissedPages(ps), MissedBlocks(ps, size, al), ps, size, al, b)
      {
        MissedNoCandidate(ps, size, al, b);
      }
    }
  }

  /** Rounding up after the limit test stays at or below the limit for every starting point
      exactly when the size is a multiple of the alignment. */
  lemma RoundingStaysIff(base: nat, size: nat, ps: nat, al: nat)
    requires ps > 0 && al > 0 && size > 0 && base % ps == 0 && ps % al == 0
    ensures var limit := base + (CeilTo(size, ps) - size);
      (forall cur: nat :: base <= cur <= limit ==> CeilTo(cur, al) <= limit) <==> size % al == 0
  {
    var limit := base + (CeilTo(size, ps) - size);
    if size % al == 0 {
      LimitAligned(base, size, ps, al);
      forall cur: nat | base <= cur <= limit
        ensures CeilTo(cur, al) <= limit
      {
        if limit < CeilTo(cur, al) {
          MultiplesApart(limit, CeilTo(cur, al), al);
        }
      }
    } else {
      assert CeilTo(limit, al) != limit by {
        if limit % al == 0 {
          MultipleTrans(base, ps, al);
          MultipleTrans(CeilTo(size, ps), ps, al);
          MultipleSum(base, CeilTo(size, ps), al);
          MultipleSum(base + CeilTo(size, ps), limit, al);
        }
      }
      assert base <= limit;
    }
  }

  /** A pool of one block, which ends at the last place where `size` bytes fit its page. */
  ghost function SpillPages(ps: nat): Pages {
    map[ps := 1]
  }

  ghost function SpillBlocks(ps: nat, size: nat): Blocks
    requires size < ps
  {
    map[ps := ps - size]
  }

  lemma SpillSound(ps: nat, size: nat)
    requires 0 < size < ps
    ensures Sound(SpillPages(ps), SpillBlocks(ps, size), ps) && Described(SpillPages(ps), ps, ps, ps)
  {
    var bs := SpillBlocks(ps, size);
    MultipleMod(ps, 1);
    assert Touching(bs, ps, ps) == {ps};
    forall p: nat | p % ps == 0 && (Touching(bs, ps, p) != {} || ps <= p < ps + ps)
      ensures p == ps
    {
      if p < ps {
        MultiplesApart(p, ps, ps);
      } else if ps < p {
        MultiplesApart(ps, p, ps);
      }
    }
  }

  /** A place that is offered there for an unaligned size is past the page. */
  lemma SpillOffered(ps: nat, size: nat, al: nat, b: nat)
    requires 0 < size < ps && al > 0 && ps % al == 0 && size % al != 0
    requires Offered(SpillBlocks(ps, size), ps, size, al, ps, b)
    ensures 2 * ps < b + size
  {
    MultipleMod(ps, 1);
    CeilUnique(size, ps, ps);
    Beside(SpillBlocks(ps, size), b, size, ps);
    if b == 2 * ps - size {
      MultipleTrans(2 * ps, ps, al) by {
        MultipleMod(ps, 2);
      }
      MultipleSum(2 * ps, b, al);
      assert false;
    }
  }

  /** Rounded up, the end of the block is such a place, and there is room from it on. */
  lemma SpillRoom(ps: nat, size: nat, al: nat)
    requires 0 < size < ps && al > 0 && ps % al == 0
    ensures var pages, bs, c := SpillPages(ps), SpillBlocks(ps, size), 2 * ps - size;
      Roomy(pages, bs, ps, size, al, c) && Offered(bs, ps, size, al, ps, CeilTo(c, al))
  {
    var c := 2 * ps - size;
    MultipleMod(ps, 1);
    CeilUnique(size, ps, ps);
    FloorUnique(c, ps, ps);
    SpillSound(ps, size);
  }

  /** Whatever place the scan chooses, in every pool, the block stays in its run if and only if its size is
      a multiple of the alignment or more than a page. */
  lemma StaysInRunIff(ps: nat, size: nat, al: nat)
    requires ps > 0 && al > 0 && size > 0 && ps % al == 0
    ensures Fits(ps, size, al) <==>
      forall pages: Pages, bs: Blocks, page: nat, b: nat ::
        (Sound(pages, bs, ps) && page in pages && Described(pages, ps, page, CeilTo(size, ps))
         && Offered(bs, ps, size, al, page, b)) ==> b + size <= page + CeilTo(size, ps)
  {
    hide Described, Offered, CeilTo;
    if Fits(ps, size, al) {
      forall pages: Pages, bs: Blocks, page: nat, b: nat |
        Sound(pages, bs, ps) && page in pages && Described(pages, ps, page, CeilTo(size, ps))
        && Offered(bs, ps, size, al, page, b)
        ensures b + size <= page + CeilTo(size, ps)
      {
        OfferedFits(pages, bs, ps, size, al, page, b);
      }
    } else {
      assert size != ps;
      MultipleMod(ps, 1);
      CeilUnique(size, ps, ps);
      SpillSound(ps, size);
      SpillRoom(ps, size, al);
      SpillOffered(ps, size, al, CeilTo(2 * ps - size, al));
      assert ps in SpillPages(ps);
    }
  }

  /** Every other request is reached: one block up to the last place that fits, and the request is placed
      across the end of the page, on a page without a descriptor. */
  method ReachSpill(ps: nat, size: nat, al: nat) returns (pool: Pool, ptr: nat)
    requires 0 < size && al > 0 && ps > 0 && ps % al == 0 && !Fits(ps, size, al)
    ensures pool.pageSize == ps && !pool.Valid() && ptr != 0
    ensures ptr in Touching(pool.blocks, ps, 2 * ps) && 2 * ps !in pool.pages
  {
    hide Candidate, Offered, Roomy, Counted, Disjoint, Described, FreeAt, CeilTo, FloorTo, Placed;
    assert size != ps;
    var rest := ps - size;
    MultipleMod(ps, 1);
    MultipleMod(ps, 2);
    CeilUnique(rest, ps, ps);
    CeilUnique(rest + 1, ps, ps);
    CeilUnique(size, ps, ps);
    MultipleMod(1, rest);
    pool := new Pool(ps);
    EmptyPool(ps, rest, 1);
    ghost var run;
    ptr, run := pool.Alloc(rest, 1, Env(ps, 1, true));
    FreshPlaced(map[], map[], ps, rest, 1, Env(ps, 1, true), ptr);
    assert pool.blocks == SpillBlocks(ps, size);
    SpillSound(ps, size);
    OneCount(pool.pages, SpillPages(ps), pool.blocks, ps);
    SpillRoom(ps, size, al);
    ptr, run := pool.Alloc(size, al, Env(0, 0, true));
    SpillOffered(ps, size, al, ptr);
    OfferedBelow(SpillBlocks(ps, size), ps, size, al, ps, ptr);
  }

  // ------------------------------------------------------------------ freeing undoes allocating

  lemma FreeUndoesPlacing(pages: Pages, ps: nat, b: nat, size: nat)
    requires ps > 0 && size > 0 && b + size <= FloorTo(b, ps) + CeilTo(size, ps)
    requires forall p <- pages :: 0 < pages[p]
    ensures CountDown(CountUp(pages, FloorTo(b, ps), CeilTo(size, ps)), FloorTo(b, ps), CeilTo(b + size, ps)) == pages
  {
    CountedUpAsDown(b, size, ps);
  }

  lemma FreeUndoesFresh(pages: Pages, ps: nat, b: nat, size: nat)
    requires ps > 0 && size > 0 && b % ps == 0
    requires forall p <- pages :: p % ps == 0 && 0 < pages[p]
    requires forall p: nat :: p % ps == 0 && b <= p < b + CeilTo(size, ps) ==> p !in pages
    ensures CountDown(pages + FreshPages(ps, b, CeilTo(size, ps)), FloorTo(b, ps), CeilTo(b + size, ps)) == pages
  {
    FloorUnique(b, ps, b);
    CountedUpAsDown(b, size, ps);
  }
}
