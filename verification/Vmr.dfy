/** Virtual memory regions: splitting, merging, probing and unlocking them. */
module Vmr {
  import opened Arith
  import opened Keys

  const PAGE: nat := 4096
  const WORD: nat := 0x1_0000_0000_0000_0000
  const USER_END: nat := 0x0000_8000_0000_0000

  datatype Right = Read | Write | Exec | Other(bit: nat)

  datatype Region = Region(size: nat, access: set<Right>)

  /** The region tree, by start address. */
  type Regions = map<nat, Region>

  datatype Status = Ok | InvalidArgs | AccessViolation | NoMem | Panicked

  ghost predicate Disjoint(m: Regions) {
    && (forall k <- m :: m[k].size > 0)
    && forall j <- m, k <- m :: j < k ==> j + m[j].size <= k
  }

  ghost predicate Aligned(m: Regions) {
    forall k <- m :: k % PAGE == 0 && m[k].size % PAGE == 0
  }

  ghost predicate Covers(m: Regions, k: nat, a: int) {
    k in m && k <= a < k + m[k].size
  }

  /** The rights at an address: those of the region that covers it. */
  ghost predicate RightsAt(m: Regions, a: int, rights: Option<set<Right>>) {
    match rights
    case Some(access) => exists k :: Covers(m, k, a) && m[k].access == access
    case None => forall k :: !Covers(m, k, a)
  }

  // ------------------------------------------------------------------ split and merge

  /** The regions after splitting the one at a. */
  function SplitAt(m: Regions, a: nat, s: nat): Regions
    requires a in m && a < s < a + m[a].size
  {
    m[s := Region(a + m[a].size - s, m[a].access)][a := m[a].(size := s - a)]
  }

  /** The regions after merging the one at b into its neighbour at a. */
  function Merged(m: Regions, a: nat, b: nat): Regions
    requires a in m && b in m
  {
    m[a := m[a].(size := m[a].size + m[b].size)] - {b}
  }

  /** A covered address has the rights of its region and no others. */
  lemma RightsOf(m: Regions, k: nat, a: int, rights: Option<set<Right>>)
    requires Disjoint(m) && Covers(m, k, a)
    ensures RightsAt(m, a, rights) <==> rights == Some(m[k].access)
  {
    forall j: nat | Covers(m, j, a)
      ensures j == k
    {
    }
  }

  lemma SplitCovers(m: Regions, a: nat, s: nat, k: nat, x: int)
    requires Disjoint(m) && a in m && a < s < a + m[a].size
    ensures s !in m
    ensures Covers(SplitAt(m, a, s), k, x) <==>
      if k == a then a <= x < s else if k == s then s <= x < a + m[a].size else Covers(m, k, x)
  {
    if s in m {
      assert false;
    }
  }

  /** Splitting keeps the regions disjoint, and aligned when the split point is. */
  lemma SplitDisjoint(m: Regions, a: nat, s: nat)
    requires Disjoint(m) && a in m && a < s < a + m[a].size
    ensures s !in m && Disjoint(SplitAt(m, a, s))
  {
    SplitCovers(m, a, s, a, 0);
  }

  lemma SplitAligned(m: Regions, a: nat, s: nat)
    requires Disjoint(m) && Aligned(m) && a in m && a < s < a + m[a].size
    ensures Aligned(SplitAt(m, a, s)) <==> s % PAGE == 0
  {
    var m' := SplitAt(m, a, s);
    SplitDisjoint(m, a, s);
    if s % PAGE == 0 {
      MultipleSum(s, a, PAGE);
      MultipleSum(a, m[a].size, PAGE);
      MultipleSum(a + m[a].size, s, PAGE);
    } else {
      assert s in m';
    }
  }

  /** Splitting keeps the rights of every address. */
  lemma SplitRights(m: Regions, a: nat, s: nat, x: int, rights: Option<set<Right>>)
    requires Disjoint(m) && a in m && a < s < a + m[a].size
    ensures RightsAt(SplitAt(m, a, s), x, rights) <==> RightsAt(m, x, rights)
  {
    var m' := SplitAt(m, a, s);
    SplitDisjoint(m, a, s);
    if k: nat :| Covers(m, k, x) {
      var k' := if k == a && s <= x then s else k;
      SplitCovers(m, a, s, k', x);
      RightsOf(m, k, x, rights);
      RightsOf(m', k', x, rights);
    } else {
      forall k: nat
        ensures !Covers(m', k, x)
      {
        SplitCovers(m, a, s, k, x);
        assert !Covers(m, a, x) && !Covers(m, k, x);
      }
    }
  }

  /** Merging undoes splitting. */
  lemma MergeUndoesSplit(m: Regions, a: nat, s: nat)
    requires Disjoint(m) && a in m && a < s < a + m[a].size
    ensures var m' := SplitAt(m, a, s); a in m' && s in m' && a + m'[a].size == s && Merged(m', a, s) == m
  {
    SplitDisjoint(m, a, s);
  }

  lemma MergeCovers(m: Regions, a: nat, b: nat, k: nat, x: int)
    requires Disjoint(m) && a in m && b in m && a + m[a].size == b
    ensures Covers(Merged(m, a, b), k, x) <==>
      if k == a then Covers(m, a, x) || Covers(m, b, x) else k != b && Covers(m, k, x)
  {
  }

  /** Merging keeps the regions disjoint. */
  lemma MergeDisjoint(m: Regions, a: nat, b: nat)
    requires Disjoint(m) && a in m && b in m && a + m[a].size == b
    ensures Disjoint(Merged(m, a, b))
  {
    var m' := Merged(m, a, b);
    forall j, k | j in m' && k in m' && j < k
      ensures j + m'[j].size <= k
    {
      assert j + m[j].size <= k;
      if j == a {
        assert b + m[b].size <= k;
      }
    }
  }

  lemma MergeAligned(m: Regions, a: nat, b: nat)
    requires Aligned(m) && a in m && b in m
    ensures Aligned(Merged(m, a, b))
  {
  }

  /** Merging keeps the addresses covered, and the rights of every address if and only if both
      regions have the same: the merged region has those of the first. */
  lemma MergeRights(m: Regions, a: nat, b: nat, x: int, rights: Option<set<Right>>)
    requires Disjoint(m) && a in m && b in m && a + m[a].size == b
    ensures RightsAt(Merged(m, a, b), x, rights) <==>
      if Covers(m, b, x) then rights == Some(m[a].access) else RightsAt(m, x, rights)
  {
    var m' := Merged(m, a, b);
    MergeDisjoint(m, a, b);
    if k: nat :| Covers(m, k, x) {
      RightsOf(m, k, x, rights);
      var k' := if k == b then a else k;
      MergeCovers(m, a, b, k', x);
      RightsOf(m', k', x, rights);
      if Covers(m, b, x) {
        RightsOf(m, b, x, rights);
      }
    } else {
      forall k: nat
        ensures !Covers(m', k, x)
      {
        MergeCovers(m, a, b, k, x);
      }
    }
  }

  lemma MergeKeepsRightsIff(m: Regions, a: nat, b: nat)
    requires Disjoint(m) && a in m && b in m && a + m[a].size == b
    ensures (forall x: int, rights :: RightsAt(m, x, rights) ==> RightsAt(Merged(m, a, b), x, rights))
      <==> m[a].access == m[b].access
  {
    if m[a].access == m[b].access {
      forall x: int, rights | RightsAt(m, x, rights)
        ensures RightsAt(Merged(m, a, b), x, rights)
      {
        MergeRights(m, a, b, x, rights);
        if Covers(m, b, x) {
          RightsOf(m, b, x, rights);
        }
      }
    } else {
      assert Covers(m, b, b);
      RightsOf(m, b, b, Some(m[b].access));
      MergeRights(m, a, b, b, Some(m[b].access));
    }
  }

  // ------------------------------------------------------------------ walking

  /** The regions that probing and unlocking go through: from the first on, up to the end if the end
      is not before the first. */
  ghost function Walked(m: Regions, first: nat, end: nat): set<nat> {
    set k | k in m && first <= k && (end < first || k <= end)
  }

  /** Every region of the walk but the first begins where another ends. */
  ghost predicate Joined(m: Regions, first: nat, w: set<nat>) {
    forall k <- w :: first < k && k in m ==> exists j :: j in m && j + m[j].size == k
  }

  /** The rights asked for that probing looks at. */
  function Asked(required: set<Right>): set<Right> {
    required * {Read, Write, Exec}
  }

  ghost predicate Granted(m: Regions, w: set<nat>, required: set<Right>) {
    forall k <- w :: k in m ==> Asked(required) <= m[k].access
  }

  /** The walk reaches the limit. */
  ghost predicate Reaches(m: Regions, w: set<nat>, limit: nat) {
    exists k :: k in w && k in m && (forall j <- w :: j <= k) && k + m[k].size >= limit
  }

  /** A region begins where another ends exactly when that is where the one before it ends. */
  lemma JoinedAt(m: Regions, l: nat, k: nat)
    requires Disjoint(m) && l in m && IsNext(m.Keys, l, k)
    ensures (exists j :: j in m && j + m[j].size == k) <==> l + m[l].size == k
  {
    if j :| j in m && j + m[j].size == k {
      assert m[j].size > 0 && m[l].size > 0;
    }
  }

  lemma JoinedNext(m: Regions, first: nat, end: nat, k: nat) returns (n: nat)
    requires Disjoint(m) && end in m && k in m && first <= k < end && Joined(m, first, Walked(m, first, end))
    ensures IsNext(m.Keys, k, n) && k + m[k].size == n
  {
    hide Disjoint;
    NextExists(m.Keys, k, end);
    n :| IsNext(m.Keys, k, n);
    assert n in Walked(m, first, end);
    JoinedAt(m, k, n);
  }

  /** In a joined walk no address between its ends is left out. */
  lemma JoinedCovers(m: Regions, first: nat, end: nat, a: nat) returns (k: nat)
    requires Disjoint(m) && first in m && end in m && first <= end && Joined(m, first, Walked(m, first, end))
    requires first <= a < end + m[end].size
    ensures Covers(m, k, a) && k in Walked(m, first, end)
  {
    hide Joined;
    FloorExists(m.Keys, a, first);
    k :| IsFloor(m.Keys, a, k);
    if k < end {
      var n := JoinedNext(m, first, end, k);
      assert a < n;
    } else {
      assert end <= k;
    }
  }

  // ------------------------------------------------------------------ the range of a request

  /** PGCEIL on 64-bit words: 0 for 0, and again for a size in the last page of the word. */
  function PageCeil(size: nat): nat {
    CeilTo(size, PAGE) % WORD
  }

  /** The last address of the pages of a request that begins in user space, or None where they go beyond
      it.  Where the round-up is 0 there are no pages, and the request ends just before it begins. */
  function Limit(ptr: nat, size: nat): Option<nat> {
    var p, len := FloorTo(ptr, PAGE), CeilTo(size, PAGE);
    if len == 0 || len == WORD then (if p == 0 then None else Some(p - 1))
    else if p + len <= USER_END then Some(p + len - 1) else None
  }

  /** The overflow and user space checks, on 64-bit words. */
  method FindLimit(ptr: nat, size: nat) returns (limit: Option<nat>)
    requires ptr < WORD && size < WORD && FloorTo(ptr, PAGE) < USER_END
    ensures limit == Limit(ptr, size)
  {
    hide FloorTo, CeilTo;
    var p := FloorTo(ptr, PAGE);
    CeilBelow(size);
    if WORD - 1 - p < PageCeil(size) {
      return None;
    }
    var last := (p + PageCeil(size) - 1) % WORD;
    if (p < USER_END) != (last < USER_END) {
      return None;
    }
    return Some(last);
  }

  lemma CeilBelow(size: nat)
    requires size < WORD
    ensures CeilTo(size, PAGE) <= WORD
  {
    if WORD < CeilTo(size, PAGE) {
      MultiplesApart(WORD, CeilTo(size, PAGE), PAGE);
      assert false;
    }
  }

  lemma LimitIs(ptr: nat, size: nat)
    requires ptr < WORD && 0 < size <= WORD - PAGE
    ensures PageCeil(size) == CeilTo(size, PAGE) && PAGE <= CeilTo(size, PAGE) < WORD
    ensures var p, limit := FloorTo(ptr, PAGE), Limit(ptr, size);
      && (limit.Some? <==> p + CeilTo(size, PAGE) <= USER_END)
      && (limit.Some? ==> limit.value == p + CeilTo(size, PAGE) - 1)
      && (limit.Some? ==> ptr <= limit.value && (limit.value + 1) % PAGE == 0)
  {
    var p := FloorTo(ptr, PAGE);
    var len := CeilTo(size, PAGE);
    MultipleSum(p, len, PAGE);
    assert PAGE <= len by {
      MultiplesApart(0, len, PAGE);
    }
  }

  // ------------------------------------------------------------------ what probing decides

  /** Some region covers the address and grants what is required. */
  ghost predicate PageGranted(m: Regions, a: nat, required: set<Right>) {
    exists k :: Covers(m, k, a) && Asked(required) <= m[k].access
  }

  ghost predicate PagesGranted(m: Regions, p: nat, limit: nat, required: set<Right>) {
    forall a: nat :: p <= a <= limit && a % PAGE == 0 ==> PageGranted(m, a, required)
  }

  /** The tests of the walk. */
  ghost predicate Passes(m: Regions, first: nat, end: nat, limit: nat, required: set<Right>) {
    var w := Walked(m, first, end);
    Granted(m, w, required) && Joined(m, first, w) && Reaches(m, w, limit)
  }

  /** A request over aligned regions: p is the page of ptr, the limit ends a page, and `first` and
      `end` are the regions at or before the two. */
  ghost predicate Request(m: Regions, ptr: nat, p: nat, limit: nat, first: nat, end: nat) {
    && Disjoint(m) && Aligned(m)
    && p <= ptr < p + PAGE && p % PAGE == 0 && ptr <= limit && (limit + 1) % PAGE == 0
    && IsFloor(m.Keys, ptr, first) && IsFloor(m.Keys, limit, end)
  }

  /** The first region begins at or before the page of ptr; the walk runs up to `end`. */
  lemma RequestBounds(m: Regions, ptr: nat, p: nat, limit: nat, first: nat, end: nat)
    requires Request(m, ptr, p, limit, first, end)
    ensures first in m && end in m && first <= end && first <= p
    ensures first in Walked(m, first, end) && end in Walked(m, first, end)
    ensures forall k <- Walked(m, first, end) :: k in m && k <= end
  {
    if p < first {
      MultiplesApart(p, first, PAGE);
      assert false;
    }
  }

  /** An aligned region that goes beyond an aligned address goes on for a page. */
  lemma WholePage(m: Regions, k: nat, a: int)
    requires Aligned(m) && k in m && a % PAGE == 0 && a < k + m[k].size
    ensures a + PAGE <= k + m[k].size
  {
    MultipleSum(k, m[k].size, PAGE);
    MultiplesApart(a, k + m[k].size, PAGE);
  }

  lemma PageBefore(limit: nat)
    requires (limit + 1) % PAGE == 0
    ensures limit + 1 - PAGE >= 0 && (limit + 1 - PAGE) % PAGE == 0
  {
  }

  lemma PassedIsGranted(m: Regions, ptr: nat, p: nat, limit: nat, first: nat, end: nat, required: set<Right>)
    requires Request(m, ptr, p, limit, first, end) && Passes(m, first, end, limit, required)
    ensures PagesGranted(m, p, limit, required)
  {
    hide Joined, Walked;
    RequestBounds(m, ptr, p, limit, first, end);
    var w := Walked(m, first, end);
    var last :| last in w && last in m && (forall j <- w :: j <= last) && last + m[last].size >= limit;
    assert last == end;
    PageBefore(limit);
    WholePage(m, end, limit + 1 - PAGE);
    forall a: nat | p <= a <= limit && a % PAGE == 0
      ensures PageGranted(m, a, required)
    {
      var k := JoinedCovers(m, first, end, a);
    }
  }

  /** The region that grants a page of the request. */
  lemma RegionFor(m: Regions, p: nat, limit: nat, required: set<Right>, a: int) returns (k: nat)
    requires Aligned(m) && PagesGranted(m, p, limit, required) && p <= a <= limit && a % PAGE == 0
    ensures Covers(m, k, a) && Asked(required) <= m[k].access && a + PAGE <= k + m[k].size
  {
    assert PageGranted(m, a, required);
    k :| Covers(m, k, a) && Asked(required) <= m[k].access;
    WholePage(m, k, a);
  }

  /** Two regions of disjoint ones that share an address are the same. */
  lemma SameRegion(m: Regions, j: nat, k: nat, a: int)
    requires Disjoint(m) && Covers(m, j, a) && k in m && k <= a
    ensures k <= j && (Covers(m, k, a) ==> j == k)
  {
  }

  /** A region of the walk after the first begins inside the request, a page or more after p. */
  lemma LaterRegion(m: Regions, ptr: nat, p: nat, limit: nat, first: nat, end: nat, k: nat)
    requires Request(m, ptr, p, limit, first, end) && k in Walked(m, first, end) && first < k
    ensures k in m && k % PAGE == 0 && p + PAGE <= k <= limit
  {
    RequestBounds(m, ptr, p, limit, first, end);
    assert ptr < k;
    MultiplesApart(p, k, PAGE);
  }

  lemma GrantedPasses(m: Regions, ptr: nat, p: nat, limit: nat, first: nat, end: nat, required: set<Right>)
    requires Request(m, ptr, p, limit, first, end) && PagesGranted(m, p, limit, required)
    ensures Passes(m, first, end, limit, required)
  {
    hide Walked, Disjoint, Covers, PagesGranted, IsFloor;
    RequestBounds(m, ptr, p, limit, first, end);
    var w := Walked(m, first, end);
    forall k | k in w
      ensures Asked(required) <= m[k].access
    {
      GrantsAt(m, ptr, p, limit, first, end, required, k);
    }
    forall k | k in w && first < k && k in m
      ensures exists j :: j in m && j + m[j].size == k
    {
      JoinsAt(m, ptr, p, limit, first, end, required, k);
    }
    EndReaches(m, ptr, p, limit, first, end, required);
  }

  lemma GrantsAt(m: Regions, ptr: nat, p: nat, limit: nat, first: nat, end: nat, required: set<Right>, k: nat)
    requires Request(m, ptr, p, limit, first, end) && PagesGranted(m, p, limit, required) && k in Walked(m, first, end)
    ensures Asked(required) <= m[k].access
  {
    RequestBounds(m, ptr, p, limit, first, end);
    if k == first {
      var j := RegionFor(m, p, limit, required, p);
      SameRegion(m, j, first, p);
      assert j <= first;
    } else {
      LaterRegion(m, ptr, p, limit, first, end, k);
      var j := RegionFor(m, p, limit, required, k);
      SameRegion(m, j, k, k);
      assert j <= k;
    }
  }

  lemma JoinsAt(m: Regions, ptr: nat, p: nat, limit: nat, first: nat, end: nat, required: set<Right>, k: nat)
    requires Request(m, ptr, p, limit, first, end) && PagesGranted(m, p, limit, required)
    requires k in Walked(m, first, end) && first < k
    ensures exists j :: j in m && j + m[j].size == k
  {
    LaterRegion(m, ptr, p, limit, first, end, k);
    var j := RegionFor(m, p, limit, required, k - PAGE);
    assert j < k && j + m[j].size <= k;
  }

  lemma EndReaches(m: Regions, ptr: nat, p: nat, limit: nat, first: nat, end: nat, required: set<Right>)
    requires Request(m, ptr, p, limit, first, end) && PagesGranted(m, p, limit, required)
    ensures limit <= end + m[end].size
  {
    RequestBounds(m, ptr, p, limit, first, end);
    PageBefore(limit);
    var a := limit + 1 - PAGE;
    if a < p {
      MultiplesApart(a, p, PAGE);
      assert false;
    }
    var j := RegionFor(m, p, limit, required, a);
    assert j <= end;
  }

  // ------------------------------------------------------------------ the walk, step by step

  /** What has been walked when the walk stands at v, or at its end. */
  ghost function Seen(m: Regions, first: nat, end: nat, v: Option<nat>): set<nat> {
    match v
    case Some(k) => set j | j in m && first <= j < k
    case None => Walked(m, first, end)
  }

  /** The walk stands at v, after `last`. */
  ghost predicate Standing(m: Regions, first: nat, end: nat, last: Option<nat>, v: Option<nat>) {
    && first in m && end in m
    && (last.Some? ==> last.value in m && first <= last.value)
    && match v
       case Some(k) =>
         && k in Walked(m, first, end)
         && (last.None? ==> k == first)
         && (last.Some? ==> IsNext(m.Keys, last.value, k))
       case None =>
         && last.Some? && last.value in Walked(m, first, end)
         && forall j <- Walked(m, first, end) :: j <= last.value
  }

  /** One step of the walk: `get_next` with its last node. */
  method NextRegion(m: Regions, v: nat, end: nat) returns (next: Option<nat>)
    ensures next == None || (v != end && IsNext(m.Keys, v, next.value))
    ensures next == None ==> v == end || forall k <- m :: k <= v
  {
    if v == end {
      return None;
    }
    next := NextKey(m.Keys, v);
  }

  lemma WalkStep(m: Regions, first: nat, end: nat, last: Option<nat>, v: nat, next: Option<nat>)
    requires Standing(m, first, end, last, Some(v))
    requires next == None || (v != end && IsNext(m.Keys, v, next.value))
    requires next == None ==> v == end || forall k <- m :: k <= v
    ensures Standing(m, first, end, Some(v), next)
    ensures v !in Seen(m, first, end, Some(v)) && Seen(m, first, end, next) == Seen(m, first, end, Some(v)) + {v}
  {
    assert v in m && first <= v && (end < first || v <= end);
    if next.Some? {
      assert next.value in Walked(m, first, end);
    }
  }

  lemma WalkStart(m: Regions, first: nat, end: nat)
    requires first in m && end in m
    ensures Standing(m, first, end, None, Some(first)) && Seen(m, first, end, Some(first)) == {}
  {
  }

  lemma JoinedGrows(m: Regions, first: nat, end: nat, last: Option<nat>, v: nat)
    requires Disjoint(m) && Standing(m, first, end, last, Some(v)) && Joined(m, first, Seen(m, first, end, Some(v)))
    ensures Joined(m, first, Seen(m, first, end, Some(v)) + {v}) <==> last.None? || last.value + m[last.value].size == v
  {
    if last.Some? {
      JoinedAt(m, last.value, v);
      assert v in Seen(m, first, end, Some(v)) + {v};
    }
  }

  /** A gap on the way is a gap in the walk. */
  lemma GapFails(m: Regions, first: nat, end: nat, last: Option<nat>, v: nat)
    requires Standing(m, first, end, last, Some(v)) && !Joined(m, first, Seen(m, first, end, Some(v)) + {v})
    ensures !Joined(m, first, Walked(m, first, end))
  {
    assert Seen(m, first, end, Some(v)) + {v} <= Walked(m, first, end);
  }

  lemma RightByRight(required: set<Right>, access: set<Right>)
    ensures Asked(required) <= access <==>
      && !(Read in required && Read !in access)
      && !(Write in required && Write !in access)
      && !(Exec in required && Exec !in access)
  {
  }

  lemma GrantedGrows(m: Regions, first: nat, end: nat, last: Option<nat>, v: nat, required: set<Right>)
    requires Standing(m, first, end, last, Some(v)) && Granted(m, Seen(m, first, end, Some(v)), required)
    ensures v in m
    ensures Granted(m, Seen(m, first, end, Some(v)) + {v}, required) <==> Asked(required) <= m[v].access
    ensures !(Asked(required) <= m[v].access) ==> !Granted(m, Walked(m, first, end), required)
  {
    assert v in m && v in Walked(m, first, end) && v in Seen(m, first, end, Some(v)) + {v};
  }

  lemma NothingSeen(m: Regions, first: nat, required: set<Right>)
    ensures Granted(m, {}, required) && Joined(m, first, {})
  {
  }

  lemma StandsIn(m: Regions, first: nat, end: nat, last: Option<nat>, v: nat)
    requires Standing(m, first, end, last, Some(v))
    ensures v in m && v !in Seen(m, first, end, Some(v)) && (last.Some? ==> last.value in m)
  {
  }

  lemma SetGrows(keys: set<nat>, seen: set<nat>, v: nat)
    requires v in keys && v !in seen && seen <= keys
    ensures |keys - (seen + {v})| < |keys - seen| && multiset(seen + {v}) == multiset(seen) + multiset{v}
  {
    assert keys - (seen + {v}) == keys - seen - {v};
  }

  lemma WalkEnds(m: Regions, first: nat, end: nat, last: Option<nat>, limit: nat)
    requires Standing(m, first, end, last, None)
    ensures last.Some? && last.value in m && Seen(m, first, end, None) == Walked(m, first, end)
    ensures Reaches(m, Walked(m, first, end), limit) <==> last.value + m[last.value].size >= limit
  {
  }

  lemma TakeAway(m: multiset<nat>, n: multiset<nat>, v: nat)
    ensures m - n - multiset{v} == m - (n + multiset{v})
  {
  }

  /** The regions that a request walks through, joined and reaching its limit. */
  ghost predicate IsWalk(m: Regions, ptr: nat, size: nat, w: set<nat>) {
    exists first, end :: Limit(ptr, size).Some?
      && IsFloor(m.Keys, ptr, first) && IsFloor(m.Keys, Limit(ptr, size).value, end) && w == Walked(m, first, end)
      && Joined(m, first, w) && Reaches(m, w, Limit(ptr, size).value)
  }

  /** The tests of probing on the regions at or before the ends of a request. */
  ghost predicate Admits(m: Regions, ptr: nat, size: nat, first: nat, end: nat, required: set<Right>) {
    && Limit(ptr, size).Some? && IsFloor(m.Keys, ptr, first) && IsFloor(m.Keys, Limit(ptr, size).value, end)
    && Passes(m, first, end, Limit(ptr, size).value, required)
  }

  /** The regions that have an address from p up to the limit. */
  ghost function Touching(m: Regions, p: nat, limit: nat): set<nat> {
    set k | k in m && k <= limit && p < k + m[k].size
  }

  /** The walk of a successful probe goes through exactly the regions with an address from the page of ptr
      up to the limit. */
  lemma WalkTouches(m: Regions, ptr: nat, size: nat, first: nat, end: nat, required: set<Right>)
    requires Disjoint(m) && ptr < WORD && Admits(m, ptr, size, first, end, required)
    ensures Aligned(m) && 0 < size <= WORD - PAGE ==>
      Walked(m, first, end) == Touching(m, FloorTo(ptr, PAGE), Limit(ptr, size).value)
  {
    hide FloorTo, CeilTo, Limit, PagesGranted, Granted, Joined, Reaches;
    if Aligned(m) && 0 < size <= WORD - PAGE {
      LimitIs(ptr, size);
      var p, limit := FloorTo(ptr, PAGE), Limit(ptr, size).value;
      RequestBounds(m, ptr, p, limit, first, end);
      PassedIsGranted(m, ptr, p, limit, first, end, required);
      var k := RegionFor(m, p, limit, required, p);
      SameRegion(m, k, first, p);
    }
  }

  lemma OneWalk(m: Regions, ptr: nat, size: nat, w: set<nat>, w': set<nat>)
    requires IsWalk(m, ptr, size, w) && IsWalk(m, ptr, size, w')
    ensures w == w'
  {
    hide Walked, Joined, Reaches;
  }

  /** With no region at or before ptr, its page is not granted. */
  lemma NotGranted(m: Regions, ptr: nat, size: nat, required: set<Right>)
    requires ptr < WORD && Limit(ptr, size).Some? && forall k <- m :: ptr < k
    ensures Aligned(m) && 0 < size <= WORD - PAGE ==>
      !PagesGranted(m, FloorTo(ptr, PAGE), Limit(ptr, size).value, required)
  {
    if Aligned(m) && 0 < size <= WORD - PAGE && PagesGranted(m, FloorTo(ptr, PAGE), Limit(ptr, size).value, required) {
      LimitIs(ptr, size);
      var k := RegionFor(m, FloorTo(ptr, PAGE), Limit(ptr, size).value, required, FloorTo(ptr, PAGE));
      assert false;
    }
  }

  /** A request of positive length that has a first region has an end. */
  lemma NoEnd(m: Regions, ptr: nat, size: nat, first: nat)
    requires ptr < WORD && Limit(ptr, size).Some? && IsFloor(m.Keys, ptr, first)
    requires forall k <- m.Keys :: Limit(ptr, size).value < k
    ensures !(0 < size <= WORD - PAGE)
  {
    if 0 < size <= WORD - PAGE {
      LimitIs(ptr, size);
      assert false;
    }
  }

  /** Over aligned regions the tests of the walk decide whether all pages are granted. */
  lemma ProbeDecides(m: Regions, ptr: nat, size: nat, first: nat, end: nat, required: set<Right>)
    requires Disjoint(m) && ptr < WORD && Limit(ptr, size).Some?
    requires IsFloor(m.Keys, ptr, first) && IsFloor(m.Keys, Limit(ptr, size).value, end)
    ensures Aligned(m) && 0 < size <= WORD - PAGE ==>
      (Passes(m, first, end, Limit(ptr, size).value, required) <==>
       PagesGranted(m, FloorTo(ptr, PAGE), Limit(ptr, size).value, required))
  {
    hide Passes, PagesGranted, Disjoint, Aligned, IsFloor;
    if Aligned(m) && 0 < size <= WORD - PAGE {
      LimitIs(ptr, size);
      var p, limit := FloorTo(ptr, PAGE), Limit(ptr, size).value;
      if Passes(m, first, end, limit, required) {
        PassedIsGranted(m, ptr, p, limit, first, end, required);
      }
      if PagesGranted(m, p, limit, required) {
        GrantedPasses(m, ptr, p, limit, first, end, required);
      }
    }
  }

  // ------------------------------------------------------------------ bytes and pages

  /** Every byte asked for is covered by a region that grants what is required. */
  ghost predicate BytesGranted(m: Regions, ptr: nat, size: nat, required: set<Right>) {
    forall a: nat :: ptr <= a < ptr + size ==> PageGranted(m, a, required)
  }

  /** The offset in the page and the size together fit the round-up of the size alone. */
  predicate TailInside(ptr: nat, size: nat) {
    ptr % PAGE + size <= CeilTo(size, PAGE)
  }

  /** This is when the last byte asked for is not after the limit. */
  lemma TailInsideIff(ptr: nat, size: nat)
    requires ptr < WORD && 0 < size <= WORD - PAGE && Limit(ptr, size).Some?
    ensures TailInside(ptr, size) <==> ptr + size - 1 <= Limit(ptr, size).value
  {
    LimitIs(ptr, size);
  }

  /** Where the pages are granted, so are the addresses on them. */
  lemma AddressGranted(m: Regions, p: nat, limit: nat, required: set<Right>, a: nat)
    requires Aligned(m) && p % PAGE == 0 && PagesGranted(m, p, limit, required) && p <= a <= limit
    ensures PageGranted(m, a, required)
  {
    var page := FloorTo(a, PAGE);
    if page < p {
      MultiplesApart(page, p, PAGE);
      assert false;
    }
    var k := RegionFor(m, p, limit, required, page);
    assert Covers(m, k, a);
  }

  /** Where an address is granted, so is its page. */
  lemma PageOfGranted(m: Regions, required: set<Right>, a: nat, page: nat)
    requires Aligned(m) && PageGranted(m, a, required) && page % PAGE == 0 && page <= a < page + PAGE
    ensures PageGranted(m, page, required)
  {
    var k :| Covers(m, k, a) && Asked(required) <= m[k].access;
    if page < k {
      MultiplesApart(page, k, PAGE);
      assert false;
    }
    assert Covers(m, k, page);
  }

  /** Granted bytes are on granted pages, up to the limit and maybe beyond; granted pages hold all the
      bytes when the last of them is not after the limit. */
  lemma BytesAndPages(m: Regions, ptr: nat, size: nat, required: set<Right>)
    requires ptr < WORD && Limit(ptr, size).Some?
    ensures Aligned(m) && 0 < size <= WORD - PAGE ==>
      var pages := PagesGranted(m, FloorTo(ptr, PAGE), Limit(ptr, size).value, required);
      && (BytesGranted(m, ptr, size, required) ==> pages)
      && (TailInside(ptr, size) && pages ==> BytesGranted(m, ptr, size, required))
  {
    if Aligned(m) && 0 < size <= WORD - PAGE {
      LimitIs(ptr, size);
      var p, limit := FloorTo(ptr, PAGE), Limit(ptr, size).value;
      if BytesGranted(m, ptr, size, required) {
        forall a: nat | p <= a <= limit && a % PAGE == 0
          ensures PageGranted(m, a, required)
        {
          ByteOnPage(ptr, size, a);
          PageOfGranted(m, required, if a < ptr then ptr else a, a);
        }
      }
      if TailInside(ptr, size) && PagesGranted(m, p, limit, required) {
        TailInsideIff(ptr, size);
        forall a: nat | ptr <= a < ptr + size
          ensures PageGranted(m, a, required)
        {
          AddressGranted(m, p, limit, required, a);
        }
      }
    }
  }

  /** Every page up to the limit holds a byte asked for: ptr, or its own first. */
  lemma ByteOnPage(ptr: nat, size: nat, a: nat)
    requires ptr < WORD && 0 < size <= WORD - PAGE && Limit(ptr, size).Some?
    requires FloorTo(ptr, PAGE) <= a <= Limit(ptr, size).value && a % PAGE == 0
    ensures if a < ptr then ptr < a + PAGE else a < ptr + size
  {
    LimitIs(ptr, size);
    var p, len := FloorTo(ptr, PAGE), CeilTo(size, PAGE);
    if a >= ptr {
      MultipleSum(p, len, PAGE);
      MultiplesApart(a, p + len, PAGE);
    }
  }

  /** A successful probe grants every byte, whatever the aligned regions are, if and only if the offset
      in the page and the size together fit the round-up of the size. */
  lemma ProbeGrantsBytesIff(ptr: nat, size: nat, required: set<Right>)
    requires ptr < WORD && 0 < size <= WORD - PAGE && Limit(ptr, size).Some?
    ensures TailInside(ptr, size) <==>
      forall m: Regions :: Disjoint(m) && Aligned(m)
        && PagesGranted(m, FloorTo(ptr, PAGE), Limit(ptr, size).value, required)
        ==> BytesGranted(m, ptr, size, required)
  {
    hide PagesGranted, BytesGranted, TailInside;
    if TailInside(ptr, size) {
      forall m: Regions | Disjoint(m) && Aligned(m)
        && PagesGranted(m, FloorTo(ptr, PAGE), Limit(ptr, size).value, required)
        ensures BytesGranted(m, ptr, size, required)
      {
        BytesAndPages(m, ptr, size, required);
      }
    } else {
      var m := TailOutside(ptr, size, required);
    }
  }

  /** Otherwise one region of just the pages up to the limit passes and leaves out the last byte. */
  lemma TailOutside(ptr: nat, size: nat, required: set<Right>) returns (m: Regions)
    requires ptr < WORD && 0 < size <= WORD - PAGE && Limit(ptr, size).Some? && !TailInside(ptr, size)
    ensures Disjoint(m) && Aligned(m) && !BytesGranted(m, ptr, size, required)
    ensures PagesGranted(m, FloorTo(ptr, PAGE), Limit(ptr, size).value, required)
    ensures m == map[FloorTo(ptr, PAGE) := Region(CeilTo(size, PAGE), required)]
  {
    LimitIs(ptr, size);
    TailInsideIff(ptr, size);
    var p := FloorTo(ptr, PAGE);
    m := map[p := Region(CeilTo(size, PAGE), required)];
    forall a: nat | p <= a <= Limit(ptr, size).value && a % PAGE == 0
      ensures PageGranted(m, a, required)
    {
      assert Covers(m, p, a);
    }
    assert !PageGranted(m, ptr + size - 1, required);
  }

  // ------------------------------------------------------------------ the context

  class Context {
    var regions: Regions
    /** The mutexes of the regions that are held. */
    var holds: multiset<nat>

    constructor (regions: Regions)
      requires Disjoint(regions)
      ensures this.regions == regions && Disjoint(this.regions) && holds == multiset{}
    {
      this.regions, holds := regions, multiset{};
    }

    /** `mm_split_mapped_area`. */
    method Split(area: nat, point: nat, allocOk: bool) returns (r: Status)
      requires Disjoint(regions)
      modifies this`regions
      ensures Disjoint(regions)
      ensures r == InvalidArgs <==> !(area < point && area in old(regions) && point < area + old(regions)[area].size)
      ensures r == NoMem <==> r != InvalidArgs && !allocOk
      ensures r == Ok || (r in {InvalidArgs, NoMem} && regions == old(regions))
      ensures r == Ok ==> point !in old(regions) && regions == SplitAt(old(regions), area, point)
      ensures r == Ok && old(Aligned(regions)) ==> (Aligned(regions) <==> point % PAGE == 0)
    {
      hide Disjoint, Aligned;
      if area >= point {
        return InvalidArgs;
      }
      if area !in regions {
        return InvalidArgs;
      }
      var vmr := regions[area];
      if area + vmr.size <= point {
        return InvalidArgs;
      }
      if !allocOk {
        return NoMem;
      }
      SplitDisjoint(regions, area, point);
      if Aligned(regions) {
        SplitAligned(regions, area, point);
      }
      regions := regions[point := Region(area + vmr.size - point, vmr.access)];
      regions := regions[area := vmr.(size := point - area)];
      return Ok;
    }

    /** `mm_merge_mapped_area`. */
    method Merge(a: nat, b: nat) returns (r: Status)
      requires Disjoint(regions)
      modifies this`regions
      ensures Disjoint(regions)
      ensures r == Ok <==> a < b && a in old(regions) && b in old(regions) && a + old(regions)[a].size == b
      ensures r == Ok || (r == InvalidArgs && regions == old(regions))
      ensures r == Ok ==> regions == Merged(old(regions), a, b)
      ensures old(Aligned(regions)) ==> Aligned(regions)
    {
      hide Disjoint, Aligned;
      if a >= b {
        return InvalidArgs;
      }
      if a !in regions {
        return InvalidArgs;
      }
      if b !in regions {
        return InvalidArgs;
      }
      if a + regions[a].size != b {
        return InvalidArgs;
      }
      MergeDisjoint(regions, a, b);
      if Aligned(regions) {
        MergeAligned(regions, a, b);
      }
      regions := regions[a := regions[a].(size := regions[a].size + regions[b].size)] - {b};
      return Ok;
    }

    /** Splitting and merging again is as if nothing had happened. */
    method SplitThenMerge(area: nat, point: nat, allocOk: bool) returns (r: Status)
      requires Disjoint(regions)
      modifies this`regions
      ensures regions == old(regions)
    {
      r := Split(area, point, allocOk);
      if r == Ok {
        MergeUndoesSplit(old(regions), area, point);
        var merged := Merge(area, point);
      }
    }

    /** The walk of `mm_probe_and_lock_pages`, locking and testing the regions. */
    method LockWalk(first: nat, end: nat, limit: nat, required: set<Right>) returns (r: Status)
      requires Disjoint(regions) && first in regions && end in regions
      modifies this`holds
      ensures r == if Passes(regions, first, end, limit, required) then Ok else AccessViolation
      ensures r == Ok ==> holds == old(holds) + multiset(Walked(regions, first, end))
    {
      hide Disjoint, Standing, Seen, Walked, Joined, Granted, Reaches, Asked;
      var vmr: Option<nat>, last: Option<nat> := Some(first), None;
      WalkStart(regions, first, end);
      NothingSeen(regions, first, required);
      ghost var seen := {};
      while vmr.Some?
        invariant Standing(regions, first, end, last, vmr) && seen == Seen(regions, first, end, vmr)
        invariant Granted(regions, seen, required) && Joined(regions, first, seen)
        invariant holds == old(holds) + multiset(seen) && seen <= regions.Keys
        decreases |regions.Keys - seen|
      {
        var v := vmr.value;
        GrantedGrows(regions, first, end, last, v, required);
        JoinedGrows(regions, first, end, last, v);
        StandsIn(regions, first, end, last, v);
        holds := holds + multiset{v};
        if last.Some? && last.value + regions[last.value].size != v {
          GapFails(regions, first, end, last, v);
          return AccessViolation;
        }
        RightByRight(required, regions[v].access);
        if Read in required && Read !in regions[v].access {
          return AccessViolation;
        }
        if Write in required && Write !in regions[v].access {
          return AccessViolation;
        }
        if Exec in required && Exec !in regions[v].access {
          return AccessViolation;
        }
        var next := NextRegion(regions, v, end);
        WalkStep(regions, first, end, last, v, next);
        SetGrows(regions.Keys, seen, v);
        last, vmr, seen := Some(v), next, seen + {v};
      }
      WalkEnds(regions, first, end, last, limit);
      if last.value + regions[last.value].size < limit {
        return AccessViolation;
      }
      return Ok;
    }

    /** The walk of `mm_unlock_pages`. */
    method UnlockWalk(first: nat, end: nat, limit: nat) returns (r: Status)
      requires Disjoint(regions) && first in regions && end in regions
      modifies this`holds
      ensures var w := Walked(regions, first, end);
        r == if Joined(regions, first, w) && Reaches(regions, w, limit) then Ok else Panicked
      ensures r == Ok ==> holds == old(holds) - multiset(Walked(regions, first, end))
    {
      hide Disjoint, Standing, Seen, Walked, Joined, Reaches;
      var vmr: Option<nat>, last: Option<nat> := Some(first), None;
      WalkStart(regions, first, end);
      NothingSeen(regions, first, {});
      ghost var seen := {};
      while vmr.Some?
        invariant Standing(regions, first, end, last, vmr) && seen == Seen(regions, first, end, vmr)
        invariant Joined(regions, first, seen)
        invariant holds == old(holds) - multiset(seen) && seen <= regions.Keys
        decreases |regions.Keys - seen|
      {
        var v := vmr.value;
        JoinedGrows(regions, first, end, last, v);
        StandsIn(regions, first, end, last, v);
        if last.Some? && last.value + regions[last.value].size != v {
          GapFails(regions, first, end, last, v);
          return Panicked;
        }
        SetGrows(regions.Keys, seen, v);
        TakeAway(old(holds), multiset(seen), v);
        holds := holds - multiset{v};
        var next := NextRegion(regions, v, end);
        WalkStep(regions, first, end, last, v, next);
        last, vmr, seen := Some(v), next, seen + {v};
      }
      WalkEnds(regions, first, end, last, limit);
      if last.value + regions[last.value].size < limit {
        return Panicked;
      }
      return Ok;
    }

    /** `mm_probe_and_lock_pages` in user space.  Over page-aligned regions and for a size whose round-up to
        pages does not wrap to 0, it succeeds if and only if every page from the page of ptr up to the
        limit is covered by a region that grants the access; it has then locked the regions with an address
        in there.  Those pages are all that the bytes asked for lie on if and only if `TailInside`; then
        success means that every byte is granted.  If every byte is, the probe always succeeds. */
    method Probe(ptr: nat, size: nat, required: set<Right>) returns (r: Status, ghost w: set<nat>)
      requires Disjoint(regions) && ptr < WORD && size < WORD && FloorTo(ptr, PAGE) < USER_END
      modifies this`holds
      ensures Aligned(regions) && 0 < size <= WORD - PAGE ==>
        var p, end := FloorTo(ptr, PAGE), FloorTo(ptr, PAGE) + CeilTo(size, PAGE);
        && (r == Ok <==> end <= USER_END && PagesGranted(regions, p, end - 1, required))
        && (r == InvalidArgs <==> USER_END < end || forall k <- regions :: ptr < k)
      ensures r == Ok <==> exists first, end :: Admits(regions, ptr, size, first, end, required)
      ensures r == Ok ==> IsWalk(regions, ptr, size, w) && holds == old(holds) + multiset(w)
      ensures r == Ok && Aligned(regions) && 0 < size <= WORD - PAGE ==>
        w == Touching(regions, FloorTo(ptr, PAGE), FloorTo(ptr, PAGE) + CeilTo(size, PAGE) - 1)
      ensures Aligned(regions) && 0 < size <= WORD - PAGE && FloorTo(ptr, PAGE) + CeilTo(size, PAGE) <= USER_END ==>
        (BytesGranted(regions, ptr, size, required) ==> r == Ok) &&
        (TailInside(ptr, size) && r == Ok ==> BytesGranted(regions, ptr, size, required))
    {
      hide FloorTo, CeilTo, Disjoint, PagesGranted, BytesGranted, TailInside, Aligned, Walked, Joined, Granted, Reaches;
      w := {};
      if 0 < size <= WORD - PAGE {
        LimitIs(ptr, size);
      }
      var limit := FindLimit(ptr, size);
      if limit.None? {
        return InvalidArgs, w;
      }
      BytesAndPages(regions, ptr, size, required);
      var end := FloorKey(regions.Keys, limit.value);
      var first := FloorKey(regions.Keys, ptr);
      if first.None? {
        NotGranted(regions, ptr, size, required);
        return InvalidArgs, w;
      }
      if end.None? {
        NoEnd(regions, ptr, size, first.value);
        return Panicked, w;
      }
      ProbeDecides(regions, ptr, size, first.value, end.value, required);
      r := LockWalk(first.value, end.value, limit.value, required);
      w := Walked(regions, first.value, end.value);
      assert r == Ok ==> Admits(regions, ptr, size, first.value, end.value, required);
      if r == Ok {
        WalkTouches(regions, ptr, size, first.value, end.value, required);
      }
    }

    /** `mm_unlock_pages` in user space. */
    method Unlock(ptr: nat, size: nat) returns (r: Status, ghost w: set<nat>)
      requires Disjoint(regions) && ptr < WORD && size < WORD && FloorTo(ptr, PAGE) < USER_END
      modifies this`holds
      ensures r == Ok ==> IsWalk(regions, ptr, size, w) && holds == old(holds) - multiset(w)
      ensures r == Ok <==> exists walk :: IsWalk(regions, ptr, size, walk)
      ensures 0 < size <= WORD - PAGE ==>
        (r == InvalidArgs <==> USER_END < FloorTo(ptr, PAGE) + CeilTo(size, PAGE) || forall k <- regions :: ptr < k)
    {
      hide FloorTo, CeilTo, Disjoint, Walked, Joined, Reaches;
      w := {};
      if 0 < size <= WORD - PAGE {
        LimitIs(ptr, size);
      }
      var limit := FindLimit(ptr, size);
      if limit.None? {
        return InvalidArgs, w;
      }
      var end := FloorKey(regions.Keys, limit.value);
      var first := FloorKey(regions.Keys, ptr);
      if first.None? {
        return InvalidArgs, w;
      }
      if end.None? {
        return Panicked, w;
      }
      r := UnlockWalk(first.value, end.value, limit.value);
      w := Walked(regions, first.value, end.value);
    }

    /** Unlocking what was probed releases exactly the regions that probing locked. */
    method ProbeThenUnlock(ptr: nat, size: nat, required: set<Right>) returns (probed: Status)
      requires Disjoint(regions) && ptr < WORD && size < WORD && FloorTo(ptr, PAGE) < USER_END
      modifies this`holds
      ensures probed == Ok ==> holds == old(holds)
    {
      hide Disjoint, Walked, Joined, Reaches, Granted, PagesGranted, Aligned;
      ghost var w, w';
      probed, w := Probe(ptr, size, required);
      if probed == Ok {
        var r;
        r, w' := Unlock(ptr, size);
        OneWalk(regions, ptr, size, w, w');
      }
    }
  }

  /** The round-up to pages is 0 for exactly the empty request and the sizes within a page of 2^64. */
  lemma CeilWraps(size: nat)
    requires size < WORD
    ensures PageCeil(size) == 0 <==> size == 0 || WORD - PAGE < size
  {
    var len := CeilTo(size, PAGE);
    if WORD - PAGE < size {
      CeilUnique(size, PAGE, WORD);
    } else if 0 < size {
      LimitIs(0, size);
    }
  }

  /** Such a request is taken to end just before it begins. */
  lemma WrappedLimit(ptr: nat, size: nat)
    requires size < WORD && PageCeil(size) == 0 && 0 < FloorTo(ptr, PAGE) < USER_END
    ensures Limit(ptr, size) == Some(FloorTo(ptr, PAGE) - 1)
  {
    hide FloorTo, CeilTo;
    CeilBelow(size);
  }

  /** A page asked for from its middle: the probe is let through by one readable page, although half of
      the bytes are on the next. */
  method MisalignedProbe() returns (context: Context, r: Status)
    ensures r == Ok && Aligned(context.regions) && !BytesGranted(context.regions, 6144, 4096, {Read})
  {
    hide Disjoint, Admits, PagesGranted, BytesGranted, TailInside, PageGranted, Aligned, IsWalk, Limit, Touching;
    hide FloorTo, CeilTo;
    FloorUnique(6144, PAGE, PAGE);
    CeilUnique(4096, PAGE, PAGE);
    PageLimit(6144, 4096);
    var m := map[PAGE := Region(PAGE, {Read})];
    ghost var m' := TailOutside(6144, 4096, {Read});
    context := new Context(m);
    ghost var w;
    r, w := context.Probe(6144, 4096, {Read});
  }

  lemma PageLimit(ptr: nat, size: nat)
    requires PAGE < ptr < 2 * PAGE && size == PAGE
    ensures Limit(ptr, size) == Some(2 * PAGE - 1) && !TailInside(ptr, size)
  {
    hide FloorTo, CeilTo;
    FloorUnique(ptr, PAGE, PAGE);
    CeilUnique(size, PAGE, PAGE);
  }

  /** So a probe of almost the whole address space is let through by two readable pages. */
  method HugeProbe(size: nat) returns (context: Context, r: Status)
    requires WORD - PAGE < size < WORD
    ensures r == Ok && context.regions == map[0 := Region(2 * PAGE, {Read})]
    ensures !BytesGranted(context.regions, PAGE, size, {Read})
  {
    hide Disjoint, Admits, PagesGranted, TailInside, PageGranted, Aligned, IsWalk, Limit, FloorTo, CeilTo, Touching;
    var m := map[0 := Region(2 * PAGE, {Read})];
    HugeAdmitted(m, PAGE, size);
    assert PAGE <= 2 * PAGE < PAGE + size;
    context := new Context(m);
    FloorUnique(PAGE, PAGE, PAGE);
    ghost var w;
    r, w := context.Probe(PAGE, size, {Read});
  }

  lemma HugeAdmitted(m: Regions, ptr: nat, size: nat)
    requires m == map[0 := Region(2 * PAGE, {Read})] && ptr == PAGE && WORD - PAGE < size < WORD
    ensures Disjoint(m) && Admits(m, ptr, size, 0, 0, {Read})
    ensures !PageGranted(m, 2 * PAGE, {Read})
  {
    hide Limit, FloorTo;
    CeilWraps(size);
    FloorUnique(ptr, PAGE, ptr);
    WrappedLimit(ptr, size);
    assert Walked(m, 0, 0) == {0};
  }

  /** Merging a readable page with a writable one after it makes the second readable and not writable. */
  method MergeLosesRights() returns (context: Context, ghost was: Regions, r: Status)
    ensures r == Ok && 0 in was && PAGE in was && context.regions == Merged(was, 0, PAGE)
    ensures RightsAt(was, PAGE, Some({Read, Write})) && !RightsAt(context.regions, PAGE, Some({Read, Write}))
  {
    var m := map[0 := Region(PAGE, {Read}), PAGE := Region(PAGE, {Read, Write})];
    was := m;
    context := new Context(m);
    r := context.Merge(0, PAGE);
    assert Covers(m, PAGE, PAGE) && Covers(context.regions, 0, PAGE);
    RightsOf(context.regions, 0, PAGE, Some({Read, Write}));
  }
}
