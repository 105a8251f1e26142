/** The x86-64 four-level page table: `kh_mmap` fills it, `kh_getmap` reads it.

    A table frame holds 512 entries.  An entry of a table at level L > 0 that is present leads to
    a table of level L-1; the entries of level 0 map pages.  Virtual pages are numbered from 0 to
    2^36-1 by bits 12 to 47 of their address. */
module PageTable {
  import opened Arith
  import opened Keys

  // ------------------------------------------------------------------ entries and tables

  datatype Entry = Entry(p: bool, rw: bool, u: bool, cd: bool, xd: bool, frame: nat)

  type Table = seq<Entry>
  type Tables = map<nat, Table>

  const ABSENT := Entry(false, false, false, false, false, 0)

  /** A cleared table. */
  function Cleared(): (t: Table)
    ensures |t| == 512 && forall i :: 0 <= i < 512 ==> t[i] == ABSENT
  {
    seq(512, i => ABSENT)
  }

  /** Which part of the address space a table serves: a table of level L and index x holds the
      entries 512x to 512x+511 of its level. */
  datatype Pos = Pos(level: nat, index: nat)

  type Places = map<nat, Pos>

  /** Every table sits at the one place its parent entry gives it. */
  ghost predicate Shaped(tables: Tables, at: Places, root: nat) {
    && root in at && at[root] == Pos(3, 0) && at.Keys == tables.Keys
    && (forall f <- tables :: |tables[f]| == 512 && at[f].level <= 3)
    && (forall f <- tables, i: nat :: i < 512 && at[f].level > 0 && tables[f][i].p ==>
          tables[f][i].frame in at && at[tables[f][i].frame] == Pos(at[f].level - 1, at[f].index * 512 + i))
  }

  /** The walk from the root to the table of level `l` and index `x`. */
  ghost function Reach(tables: Tables, root: nat, l: nat, x: nat): Option<nat>
    decreases 3 - l
  {
    if l >= 3 then (if l == 3 && x == 0 then Some(root) else None)
    else
      match Reach(tables, root, l + 1, x / 512)
      case None => None
      case Some(f) =>
        if f in tables && |tables[f]| == 512 && tables[f][x % 512].p then Some(tables[f][x % 512].frame) else None
  }

  /** What the table says about virtual page `v`: its last-level entry, when present. */
  ghost function Lookup(tables: Tables, root: nat, v: nat): Option<Entry> {
    match Reach(tables, root, 0, v / 512)
    case None => None
    case Some(f) =>
      if f in tables && |tables[f]| == 512 && tables[f][v % 512].p then Some(tables[f][v % 512]) else None
  }

  lemma {:induction false} ReachPlace(tables: Tables, at: Places, root: nat, l: nat, x: nat)
    requires Shaped(tables, at, root) && Reach(tables, root, l, x).Some?
    ensures Reach(tables, root, l, x).value in tables && at[Reach(tables, root, l, x).value] == Pos(l, x)
    decreases 3 - l
  {
    if l < 3 {
      ReachPlace(tables, at, root, l + 1, x / 512);
    }
  }

  // ------------------------------------------------------------------ writing a page entry

  ghost function Put(tables: Tables, f: nat, i: nat, e: Entry): Tables
    requires f in tables && i < |tables[f]|
  {
    tables[f := tables[f][i := e]]
  }

  lemma PutPageShaped(tables: Tables, at: Places, root: nat, f: nat, i: nat, e: Entry)
    requires Shaped(tables, at, root) && f in tables && at[f].level == 0 && i < 512
    ensures Shaped(Put(tables, f, i, e), at, root)
  {
    assert Put(tables, f, i, e).Keys == tables.Keys;
  }

  lemma {:induction false} PutPageReach(tables: Tables, at: Places, root: nat, f: nat, i: nat, e: Entry, l: nat, x: nat)
    requires Shaped(tables, at, root) && f in tables && at[f].level == 0 && i < 512
    ensures Reach(Put(tables, f, i, e), root, l, x) == Reach(tables, root, l, x)
    decreases 3 - l
  {
    if l < 3 {
      PutPageReach(tables, at, root, f, i, e, l + 1, x / 512);
      if Reach(tables, root, l + 1, x / 512).Some? {
        ReachPlace(tables, at, root, l + 1, x / 512);
      }
    }
  }

  /** Writing the entry of one page changes what is said about that page and no other. */
  lemma PutPageLookup(tables: Tables, at: Places, root: nat, f: nat, v: nat, e: Entry, w: nat)
    requires Shaped(tables, at, root) && Reach(tables, root, 0, v / 512) == Some(f) && f in tables && at[f].level == 0
    ensures Lookup(Put(tables, f, v % 512, e), root, w)
         == if w == v then (if e.p then Some(e) else None) else Lookup(tables, root, w)
  {
    PutPageReach(tables, at, root, f, v % 512, e, 0, w / 512);
    if Reach(tables, root, 0, w / 512).Some? {
      ReachPlace(tables, at, root, 0, w / 512);
      ReachPlace(tables, at, root, 0, v / 512);
    }
  }

  // ------------------------------------------------------------------ hanging in a new table

  ghost function Hang(tables: Tables, f: nat, i: nat, e: Entry): Tables
    requires f in tables && i < |tables[f]|
  {
    tables[e.frame := Cleared()][f := tables[f][i := e]]
  }

  /** Frames that can become tables: distinct, not null and not yet tables. */
  ghost predicate Spare(supply: seq<nat>, tables: Tables) {
    && (forall i :: 0 <= i < |supply| ==> supply[i] !in tables && supply[i] != 0)
    && (forall i, j :: 0 <= i < j < |supply| ==> supply[i] != supply[j])
  }

  lemma HangSpare(supply: seq<nat>, tables: Tables, f: nat, i: nat, e: Entry)
    requires supply != [] && Spare(supply, tables) && f in tables && i < |tables[f]| && e.frame == supply[0]
    ensures supply[0] !in tables && Spare(supply[1..], Hang(tables, f, i, e))
  {
  }

  /** A table on the way: its place, its size, and where its entries lead. */
  lemma TableAt(tables: Tables, at: Places, root: nat, l: nat, q: nat)
    requires Shaped(tables, at, root) && 0 < l <= 3 && Reach(tables, root, l, q / 512).Some?
    ensures var f := Reach(tables, root, l, q / 512).value;
      && f in tables && at[f] == Pos(l, q / 512) && |tables[f]| == 512
      && Reach(tables, root, l - 1, q) == if tables[f][q % 512].p then Some(tables[f][q % 512].frame) else None
  {
    ReachPlace(tables, at, root, l, q / 512);
  }

  lemma HangShaped(tables: Tables, at: Places, root: nat, f: nat, i: nat, e: Entry)
    requires Shaped(tables, at, root) && f in tables && at[f].level > 0 && i < 512
    requires !tables[f][i].p && e.p && e.frame !in tables
    ensures Shaped(Hang(tables, f, i, e), at[e.frame := Pos(at[f].level - 1, at[f].index * 512 + i)], root)
  {
    var tables', at' := Hang(tables, f, i, e), at[e.frame := Pos(at[f].level - 1, at[f].index * 512 + i)];
    assert tables'.Keys == tables.Keys + {e.frame};
    forall h, j: nat | h in tables' && j < 512 && at'[h].level > 0 && tables'[h][j].p
      ensures tables'[h][j].frame in at' && at'[tables'[h][j].frame] == Pos(at'[h].level - 1, at'[h].index * 512 + j)
    {
      if h != e.frame && (h != f || j != i) {
        assert tables'[h][j] == tables[h][j];
      }
    }
  }

  /** Where an entry of a table leads. */
  ghost function Entered(tables: Tables, f: nat, i: nat): Option<nat>
    requires i < 512
  {
    if f in tables && |tables[f]| == 512 && tables[f][i].p then Some(tables[f][i].frame) else None
  }

  lemma ReachEntered(tables: Tables, root: nat, l: nat, x: nat)
    requires l < 3
    ensures Reach(tables, root, l, x) ==
      match Reach(tables, root, l + 1, x / 512) { case None => None case Some(f) => Entered(tables, f, x % 512) }
  {
  }

  lemma HangEntered(tables: Tables, f: nat, i: nat, e: Entry, g: nat, j: nat)
    requires f in tables && |tables[f]| == 512 && i < 512 && j < 512 && e.p && e.frame !in tables
    ensures Entered(Hang(tables, f, i, e), g, j)
         == if g == f && j == i then Some(e.frame) else Entered(tables, g, j)
  {
  }

  lemma ReachTop(tables: Tables, root: nat, l: nat, x: nat)
    requires l >= 3
    ensures Reach(tables, root, l, x) == if l == 3 && x == 0 then Some(root) else None
  {
  }

  /** Nothing is reached through an entry that is not present. */
  lemma ReachAbsent(tables: Tables, root: nat, f: nat, l: nat, q: nat, i: nat)
    requires 0 < l <= 3 && i < 512 && Reach(tables, root, l, q) == Some(f) && Entered(tables, f, i) == None
    ensures Reach(tables, root, l - 1, q * 512 + i) == None
  {
    hide Entered;
    ReachEntered(tables, root, l - 1, q * 512 + i);
  }

  /** The new table can be reached at its place; nothing else changes. */
  lemma {:induction false} HangReach(tables: Tables, at: Places, root: nat, f: nat, i: nat, e: Entry, l: nat, x: nat)
    requires Shaped(tables, at, root) && f in tables && at[f].level > 0 && i < 512
    requires Reach(tables, root, at[f].level, at[f].index) == Some(f)
    requires !tables[f][i].p && e.p && e.frame !in tables
    ensures Reach(Hang(tables, f, i, e), root, l, x)
         == if l == at[f].level - 1 && x == at[f].index * 512 + i then Some(e.frame) else Reach(tables, root, l, x)
    decreases 3 - l
  {
    hide Hang, Entered, Reach;
    var h := Hang(tables, f, i, e);
    if l >= 3 {
      ReachTop(tables, root, l, x);
      ReachTop(h, root, l, x);
    } else {
      HangReach(tables, at, root, f, i, e, l + 1, x / 512);
      ReachEntered(tables, root, l, x);
      ReachEntered(h, root, l, x);
      AbsentEntry(tables, f, i);
      ReachAbsent(tables, root, f, at[f].level, at[f].index, i);
      NoTable(tables, e.frame, x % 512);
      match Reach(h, root, l + 1, x / 512)
      case None =>
      case Some(g) =>
        HangEntered(tables, f, i, e, g, x % 512);
        if Reach(tables, root, l + 1, x / 512).Some? {
          ReachPlace(tables, at, root, l + 1, x / 512);
        }
    }
  }

  lemma AbsentEntry(tables: Tables, f: nat, i: nat)
    requires f in tables && |tables[f]| == 512 && i < 512 && !tables[f][i].p
    ensures Entered(tables, f, i) == None
  {
  }

  lemma NoTable(tables: Tables, f: nat, i: nat)
    requires f !in tables && i < 512
    ensures Entered(tables, f, i) == None
  {
  }

  lemma HangLookup(tables: Tables, at: Places, root: nat, f: nat, i: nat, e: Entry, w: nat)
    requires Shaped(tables, at, root) && f in tables && at[f].level > 0 && i < 512
    requires Reach(tables, root, at[f].level, at[f].index) == Some(f)
    requires !tables[f][i].p && e.p && e.frame !in tables
    ensures Lookup(Hang(tables, f, i, e), root, w) == Lookup(tables, root, w)
  {
    HangReach(tables, at, root, f, i, e, 0, w / 512);
    if Reach(tables, root, 0, w / 512).Some? {
      ReachPlace(tables, at, root, 0, w / 512);
    }
    if at[f].level == 1 && w / 512 == at[f].index * 512 + i {
      assert Reach(tables, root, 1, w / 512 / 512) == Some(f);
    }
  }

  // ------------------------------------------------------------------ rights on the way

  /** What the processor lets a page be used for; reading needs no bit. */
  datatype Rights = Rights(write: bool, user: bool, exec: bool) {
    function Through(e: Entry): Rights {
      Rights(write && e.rw, user && e.u, exec && !e.xd)
    }
  }

  const ALL := Rights(true, true, true)

  /** The entry of a table, when present. */
  ghost function Present(tables: Tables, f: nat, i: nat): Option<Entry>
    requires i < 512
  {
    if f in tables && |tables[f]| == 512 && tables[f][i].p then Some(tables[f][i]) else None
  }

  /** The rights that the entries on the way to the table of level `l` and index `x` leave, as far as there
      are any. */
  ghost function Upper(tables: Tables, root: nat, l: nat, x: nat): Rights
    decreases 3 - l
  {
    if l >= 3 then ALL else
    var up := Upper(tables, root, l + 1, x / 512);
    match Reach(tables, root, l + 1, x / 512)
    case None => up
    case Some(f) => match Present(tables, f, x % 512) { case None => up case Some(e) => up.Through(e) }
  }

  /** The rights of a mapped page: those that all four entries on its walk leave. */
  ghost function PageRights(tables: Tables, root: nat, v: nat): Option<Rights> {
    match Lookup(tables, root, v)
    case None => None
    case Some(e) => Some(Upper(tables, root, 0, v / 512).Through(e))
  }

  lemma {:induction false} PutPageUpper(tables: Tables, at: Places, root: nat, f: nat, i: nat, e: Entry, l: nat, x: nat)
    requires Shaped(tables, at, root) && f in tables && at[f].level == 0 && i < 512
    ensures Upper(Put(tables, f, i, e), root, l, x) == Upper(tables, root, l, x)
    decreases 3 - l
  {
    if l < 3 {
      PutPageUpper(tables, at, root, f, i, e, l + 1, x / 512);
      PutPageReach(tables, at, root, f, i, e, l + 1, x / 512);
      if Reach(tables, root, l + 1, x / 512).Some? {
        ReachPlace(tables, at, root, l + 1, x / 512);
      }
    }
  }

  lemma HangPresent(tables: Tables, f: nat, i: nat, e: Entry, g: nat, j: nat)
    requires f in tables && |tables[f]| == 512 && i < 512 && j < 512 && e.p && e.frame !in tables
    ensures Present(Hang(tables, f, i, e), g, j) == if g == f && j == i then Some(e) else Present(tables, g, j)
  {
  }

  lemma UpperStep(tables: Tables, root: nat, l: nat, x: nat)
    requires l < 3
    ensures Upper(tables, root, l, x) ==
      var up := Upper(tables, root, l + 1, x / 512);
      match Reach(tables, root, l + 1, x / 512) {
        case None => up
        case Some(f) => match Present(tables, f, x % 512) { case None => up case Some(e) => up.Through(e) }
      }
  {
  }

  /** A new table hung under an entry that grants everything leaves the rights on every way as they were. */
  lemma {:induction false} HangUpper(tables: Tables, at: Places, root: nat, f: nat, i: nat, e: Entry, l: nat, x: nat)
    requires Shaped(tables, at, root) && f in tables && at[f].level > 0 && i < 512
    requires Reach(tables, root, at[f].level, at[f].index) == Some(f)
    requires !tables[f][i].p && e.p && e.frame !in tables && e.rw && e.u && !e.xd
    ensures Upper(Hang(tables, f, i, e), root, l, x) == Upper(tables, root, l, x)
    decreases 3 - l
  {
    hide Hang, Reach, Upper, Shaped;
    SizeOf(tables, at, root, f);
    var h := Hang(tables, f, i, e);
    if l >= 3 {
      UpperTop(tables, root, l, x);
      UpperTop(h, root, l, x);
    } else {
      HangUpper(tables, at, root, f, i, e, l + 1, x / 512);
      HangReach(tables, at, root, f, i, e, l + 1, x / 512);
      UpperStep(tables, root, l, x);
      UpperStep(h, root, l, x);
      match Reach(h, root, l + 1, x / 512)
      case None =>
      case Some(g) =>
        HangPresent(tables, f, i, e, g, x % 512);
        HangParent(tables, at, root, f, i, l + 1, x / 512);
    }
  }

  lemma SizeOf(tables: Tables, at: Places, root: nat, f: nat)
    requires Shaped(tables, at, root) && f in tables
    ensures |tables[f]| == 512
  {
  }

  lemma UpperTop(tables: Tables, root: nat, l: nat, x: nat)
    requires l >= 3
    ensures Upper(tables, root, l, x) == ALL
  {
  }

  /** Nothing was reached where the new table goes. */
  lemma HangParent(tables: Tables, at: Places, root: nat, f: nat, i: nat, l: nat, x: nat)
    requires Shaped(tables, at, root) && f in tables && at[f].level > 0 && i < 512 && !tables[f][i].p
    requires Reach(tables, root, at[f].level, at[f].index) == Some(f)
    ensures l == at[f].level - 1 && x == at[f].index * 512 + i ==> Reach(tables, root, l, x) == None
  {
    hide Reach;
    AbsentEntry(tables, f, i);
    ReachAbsent(tables, root, f, at[f].level, at[f].index, i);
  }

  // ------------------------------------------------------------------ requests

  /** The access bits of a mapping request (`mm_pgaccess_t`). */
  datatype Access = Access(mapped: bool, read: bool, write: bool, exec: bool, nocache: bool, user: bool)

  /** A request to map pages `lo` to `hi`-1 to the physical memory at `paddr`. */
  datatype Job = Job(lo: nat, hi: nat, paddr: nat, access: Access, noAlloc: bool, noRemap: bool, noRc: bool) {
    function Diff(): nat {
      if paddr != 0 then 4096 else 0
    }

    /** The physical address for page `v`. */
    function PhysAt(v: nat): nat
      requires lo <= v
    {
      paddr + (v - lo) * Diff()
    }

    /** `hn_pgaccess_to_pgmask` and the three assignments to a page entry; the address field has
        40 bits. */
    function EntryFor(phys: nat): Entry {
      Entry(access.mapped, access.write, access.user, access.nocache, !access.exec, (phys / 4096) % 0x100_0000_0000)
    }

    /** What a lookup of page `v` must give once the request is served. */
    function Expected(v: nat): Option<Entry>
      requires lo <= v
    {
      if access.mapped then Some(EntryFor(PhysAt(v))) else None
    }

    function Clamp(v: nat): nat {
      if v < lo then lo else if hi < v then hi else v
    }
  }

  /** The answer of `kh_getmap`: a physical address, 0 for null, and the access bits, None where they are not
      written. */
  datatype Mapping = Mapping(phys: nat, access: Option<Access>)

  /** Reading is always reported, the cache bit never. */
  function Report(e: Option<Entry>): Mapping {
    match e
    case None => Mapping(0, None)
    case Some(e) => Mapping(e.frame * 4096, Some(Access(e.p, true, e.rw, !e.xd, false, e.u)))
  }

  /** Pages under one entry of a level. */
  function Span(l: nat): (s: nat)
    ensures 0 < s
  {
    if l == 0 then 1 else if l == 1 then 512 else if l == 2 then 0x4_0000 else 0x800_0000
  }

  /** The loop start of a table: the entry of `lo` when the table holds it, else its first. */
  function StartEntry(job: Job, l: nat, x: nat): nat {
    if x == job.lo / Span(l + 1) then job.lo / Span(l) else x * 512
  }

  lemma StartsRight(job: Job, l: nat, x: nat)
    requires l <= 2 && job.lo <= job.hi && job.lo / Span(l + 1) <= x
    ensures var q := StartEntry(job, l, x);
      && x * 512 <= q < x * 512 + 512 && job.lo / Span(l) <= q
      && job.Clamp(q * Span(l)) == job.Clamp(x * Span(l + 1))
  {
    if l == 0 {
    } else if l == 1 {
    } else {
    }
  }

  lemma StartPage(job: Job, x: nat)
    requires job.lo <= job.hi && job.lo / 512 <= x
    ensures var v := StartEntry(job, 0, x);
      x * 512 <= v < x * 512 + 512 && job.lo <= v && job.Clamp(v) == job.Clamp(x * 512)
  {
  }

  lemma EndPage(job: Job, x: nat, v: nat)
    requires job.lo <= job.hi && v <= x * 512 + 512 && (v == x * 512 + 512 || job.hi <= v)
    ensures job.Clamp(v) == job.Clamp((x + 1) * 512)
  {
  }

  lemma EndsRight(job: Job, l: nat, x: nat, q: nat)
    requires l <= 2 && job.lo <= job.hi && q <= x * 512 + 512
    requires q == x * 512 + 512 || job.hi <= q * Span(l)
    ensures job.Clamp(q * Span(l)) == job.Clamp((x + 1) * Span(l + 1))
  {
    if l == 0 {
    } else if l == 1 {
    } else {
    }
  }

  /** Between `was` and `now`, the pages from `a` to `b`-1 were mapped as requested and no other
      page was touched. */
  ghost predicate Mapped(was: Tables, now: Tables, root: nat, job: Job, a: nat, b: nat)
    requires job.lo <= a
  {
    forall w: nat :: Lookup(now, root, w) == if a <= w < b then job.Expected(w) else Lookup(was, root, w)
  }

  /** Only pages of the request may have changed. */
  ghost predicate Outside(was: Tables, now: Tables, root: nat, job: Job) {
    forall w: nat :: !(job.lo <= w < job.hi) ==> Lookup(now, root, w) == Lookup(was, root, w)
  }

  /** Every table that could be reached still can, at the same place, and the rights on every way are as
      they were. */
  ghost predicate Grown(was: Tables, now: Tables, root: nat) {
    && (forall l: nat, x: nat ::
          l <= 3 && Reach(was, root, l, x).Some? ==> Reach(now, root, l, x) == Reach(was, root, l, x))
    && forall l: nat, x: nat :: Upper(now, root, l, x) == Upper(was, root, l, x)
  }

  ghost predicate SameLookup(was: Tables, now: Tables, root: nat) {
    forall w: nat :: Lookup(now, root, w) == Lookup(was, root, w)
  }

  lemma GrownSelf(t: Tables, root: nat)
    ensures Grown(t, t, root)
  {
  }

  lemma GrownReach(was: Tables, now: Tables, root: nat, l: nat, x: nat)
    requires Grown(was, now, root) && l <= 3 && Reach(was, root, l, x).Some?
    ensures Reach(now, root, l, x) == Reach(was, root, l, x)
  {
  }

  lemma GrownChain(was: Tables, mid: Tables, now: Tables, root: nat)
    requires Grown(was, mid, root) && Grown(mid, now, root)
    ensures Grown(was, now, root)
  {
  }

  lemma SameLookupOutside(was: Tables, now: Tables, root: nat, job: Job)
    requires SameLookup(was, now, root)
    ensures Outside(was, now, root, job)
  {
  }

  lemma OutsideChain(was: Tables, mid: Tables, now: Tables, root: nat, job: Job)
    requires Outside(was, mid, root, job) && Outside(mid, now, root, job)
    ensures Outside(was, now, root, job)
  {
  }

  /** The frames that pages `a` to `b`-1 were mapped to, in order. */
  ghost function Dropped(tables: Tables, root: nat, a: nat, b: nat): seq<nat>
    requires a <= b
  {
    if a == b then []
    else Dropped(tables, root, a, b - 1) + match Lookup(tables, root, b - 1) case None => [] case Some(e) => [e.frame]
  }

  /** As `Mapped`; unless the request says not to, the frames mapped before were released; and if it
      says not to remap, there were none. */
  ghost predicate Served(was: Tables, now: Tables, root: nat, job: Job, a: nat, b: nat, rel: seq<nat>, rel': seq<nat>)
    requires job.lo <= a <= b
  {
    && Mapped(was, now, root, job, a, b)
    && rel' == (rel + if job.noRc then [] else Dropped(was, root, a, b))
    && (job.noRemap ==> Dropped(was, root, a, b) == [])
  }

  datatype Outcome = Ok | NoMem | Panic

  /** The frames taken from the supply, its first ones, are the tables added; under `fixed` there are none. */
  ghost predicate Took(was: Tables, supply: seq<nat>, now: Tables, rest: seq<nat>, fixed: bool) {
    && |rest| <= |supply| && rest == supply[|supply| - |rest|..] && (fixed ==> rest == supply)
    && now.Keys == was.Keys + set i | 0 <= i < |supply| - |rest| :: supply[i]
  }

  lemma TookNone(was: Tables, now: Tables, supply: seq<nat>, fixed: bool)
    requires now.Keys == was.Keys
    ensures Took(was, supply, now, supply, fixed)
  {
  }

  lemma TookOne(was: Tables, now: Tables, supply: seq<nat>)
    requires supply != [] && now.Keys == was.Keys + {supply[0]}
    ensures Took(was, supply, now, supply[1..], false)
  {
    assert (set i | 0 <= i < 1 :: supply[i]) == {supply[0]};
  }

  lemma TookChain(was: Tables, supply: seq<nat>, mid: Tables, rest: seq<nat>, now: Tables, last: seq<nat>, fixed: bool)
    requires Took(was, supply, mid, rest, fixed) && Took(mid, rest, now, last, fixed)
    ensures Took(was, supply, now, last, fixed)
  {
    var n, m := |supply| - |rest|, |supply| - |last|;
    assert last == supply[m..];
    assert forall i :: n <= i < m ==> supply[i] == rest[i - n];
    assert forall i :: 0 <= i < m - n ==> rest[i] == supply[i + n];
    assert (set i | 0 <= i < m :: supply[i]) == (set i | 0 <= i < n :: supply[i]) + set i | 0 <= i < m - n :: rest[i];
  }

  /** The page has a last-level table. */
  ghost predicate HasTable(tables: Tables, root: nat, v: nat) {
    Reach(tables, root, 0, v / 512).Some?
  }

  /** A page of the request has no last-level table, or the root entry of its end leads to none: the outermost
      loop goes on to that entry even when the request ends where it begins. */
  ghost predicate Lacks(tables: Tables, root: nat, job: Job) {
    || (exists v: nat :: job.lo <= v < job.hi && !HasTable(tables, root, v))
    || Reach(tables, root, 2, job.hi / Span(3)).None?
  }

  /** A page from `a` on to the end of the request is mapped. */
  ghost predicate Occupied(tables: Tables, root: nat, job: Job, a: nat) {
    exists v: nat :: a <= v < job.hi && Lookup(tables, root, v).Some?
  }

  /** The only reasons not to serve a request from page `a` on: a table is missing and no frame is left or the
      flags forbid to take one, or a page is mapped and the flags forbid to remap it. */
  ghost predicate Excused(was: Tables, root: nat, r: Outcome, supply: seq<nat>, job: Job, a: nat) {
    && (r.NoMem? ==> supply == [] && !job.noAlloc && Lacks(was, root, job))
    && (r.Panic? ==> (job.noAlloc && Lacks(was, root, job)) || (job.noRemap && Occupied(was, root, job, a)))
  }

  lemma OccupiedAt(tables: Tables, root: nat, supply: seq<nat>, job: Job, v: nat)
    requires v < job.hi && job.noRemap && Lookup(tables, root, v).Some?
    ensures Excused(tables, root, Panic, supply, job, v)
  {
  }

  lemma LackExcuses(was: Tables, root: nat, r: Outcome, supply: seq<nat>, job: Job, a: nat)
    requires Lacks(was, root, job) && (if job.noAlloc then r != NoMem else r.Ok? || (r.NoMem? && supply == []))
    ensures Excused(was, root, r, supply, job, a)
  {
  }

  /** The root entries of a request but the last begin inside it or before. */
  lemma RootSpan(job: Job, x: nat)
    requires x <= job.hi / Span(3)
    ensures x * Span(3) < job.hi || x == job.hi / Span(3)
  {
  }

  lemma OkExcused(was: Tables, root: nat, supply: seq<nat>, job: Job, a: nat)
    ensures Excused(was, root, Ok, supply, job, a)
  {
  }

  /** What is missing or in the way after pages `a` to `b`-1 were mapped was so before. */
  lemma ExcusedFrom(was: Tables, mid: Tables, root: nat, r: Outcome, supply: seq<nat>, job: Job, a: nat, b: nat)
    requires job.lo <= a <= b && Excused(mid, root, r, supply, job, b)
    requires Mapped(was, mid, root, job, a, b) && Grown(was, mid, root)
    ensures Excused(was, root, r, supply, job, a)
  {
    hide Lookup, Reach;
    if Occupied(mid, root, job, b) {
      var v: nat :| b <= v < job.hi && Lookup(mid, root, v).Some?;
      assert Lookup(was, root, v) == Lookup(mid, root, v);
    }
    if Lacks(mid, root, job) {
      LackedBefore(was, mid, root, job);
    }
  }

  lemma LackedBefore(was: Tables, mid: Tables, root: nat, job: Job)
    requires Lacks(mid, root, job) && Grown(was, mid, root)
    ensures Lacks(was, root, job)
  {
    hide Reach, Span;
    if v: nat :| job.lo <= v < job.hi && !HasTable(mid, root, v) {
      assert !HasTable(was, root, v);
    }
  }

  lemma SameIsMapped(was: Tables, now: Tables, root: nat, job: Job, a: nat)
    requires SameLookup(was, now, root) && job.lo <= a
    ensures Mapped(was, now, root, job, a, a)
  {
  }

  /** An entry on the way to the request that leads to no table leaves a page of it without one, or is the
      root entry of its end. */
  lemma LacksAt(tables: Tables, root: nat, job: Job, l: nat, q: nat)
    requires 0 < l <= 3 && job.lo < job.hi && job.lo / Span(l) <= q && Reach(tables, root, l - 1, q).None?
    requires q * Span(l) < job.hi || (l == 3 && q == job.hi / Span(3))
    ensures Lacks(tables, root, job)
  {
    hide Reach;
    if q * Span(l) < job.hi {
      var v := job.Clamp(q * Span(l));
      assert v / Span(l) == q && job.lo <= v < job.hi by {
        ClampedPage(job, l, q);
      }
      ReachDown(tables, root, l, v);
      assert !HasTable(tables, root, v);
    }
  }

  lemma ClampedPage(job: Job, l: nat, q: nat)
    requires 0 < l <= 3 && job.lo < job.hi && job.lo / Span(l) <= q && q * Span(l) < job.hi
    ensures var v := job.Clamp(q * Span(l)); v / Span(l) == q && job.lo <= v < job.hi
  {
    var v := job.Clamp(q * Span(l));
    if v == q * Span(l) {
      DivModUnique(v, Span(l), q, 0);
    } else if l == 1 {
    } else if l == 2 {
    } else {
    }
  }

  /** A page without a table of level `l`-1 has none below. */
  lemma ReachDown(tables: Tables, root: nat, l: nat, v: nat)
    requires 0 < l <= 3 && Reach(tables, root, l - 1, v / Span(l)).None?
    ensures Reach(tables, root, 0, v / 512).None?
  {
    hide Reach;
    assert v / Span(2) == v / 512 / 512 && v / Span(3) == v / 512 / 512 / 512 by {
      PageShifts(v);
      DivModUnique(v, Span(2), v / 512 / 512, v - v / 512 / 512 * Span(2));
    }
    ReachEntered(tables, root, 0, v / 512);
    ReachEntered(tables, root, 1, v / 512 / 512);
  }

  class AddressSpace {
    const root: nat
    var tables: Tables
    ghost var at: Places
    var supply: seq<nat>
    var released: seq<nat>

    constructor (r: nat, frames: seq<nat>)
      requires forall i :: 0 <= i < |frames| ==> frames[i] != r && frames[i] != 0
      requires forall i, j :: 0 <= i < j < |frames| ==> frames[i] != frames[j]
      ensures Valid() && root == r && supply == frames && tables == map[r := Cleared()] && released == []
    {
      root, tables, at, supply, released := r, map[r := Cleared()], map[r := Pos(3, 0)], frames, [];
    }

    /** The frames still to be had from the page allocator are fresh. */
    ghost predicate Valid()
      reads this
    {
      && Shaped(tables, at, root)
      && Spare(supply, tables)
    }

    /** Writes the page entry of `v` in the table `f`. */
    method WritePage(f: nat, v: nat, e: Entry)
      requires Valid() && Reach(tables, root, 0, v / 512) == Some(f)
      modifies this`tables
      ensures Valid() && Grown(old(tables), tables, root) && tables.Keys == old(tables).Keys
      ensures forall w: nat ::
        Lookup(tables, root, w) == if w == v then (if e.p then Some(e) else None) else Lookup(old(tables), root, w)
    {
      ReachPlace(tables, at, root, 0, v / 512);
      PutPageShaped(tables, at, root, f, v % 512, e);
      forall w: nat
        ensures Lookup(Put(tables, f, v % 512, e), root, w)
             == if w == v then (if e.p then Some(e) else None) else Lookup(tables, root, w)
      {
        PutPageLookup(tables, at, root, f, v, e, w);
      }
      forall l: nat, x: nat
        ensures Reach(Put(tables, f, v % 512, e), root, l, x) == Reach(tables, root, l, x)
      {
        PutPageReach(tables, at, root, f, v % 512, e, l, x);
      }
      forall l: nat, x: nat
        ensures Upper(Put(tables, f, v % 512, e), root, l, x) == Upper(tables, root, l, x)
      {
        PutPageUpper(tables, at, root, f, v % 512, e, l, x);
      }
      tables := tables[f := tables[f][v % 512 := e]];
    }

    /** Makes sure the entry `q` of the table `f` leads to a table, taking a frame when it does
        not. */
    method Child(l: nat, f: nat, q: nat, noAlloc: bool) returns (r: Outcome, g: nat)
      requires Valid() && 0 < l <= 3 && Reach(tables, root, l, q / 512) == Some(f)
      modifies this`tables, this`at, this`supply
      ensures Valid() && Grown(old(tables), tables, root)
      ensures SameLookup(old(tables), tables, root)
      ensures r.Ok? ==> Reach(tables, root, l - 1, q) == Some(g)
      ensures r == if Reach(old(tables), root, l - 1, q).Some? then Ok
                   else if noAlloc then Panic
                   else if old(supply) == [] then NoMem
                   else Ok
      ensures Took(old(tables), old(supply), tables, supply, noAlloc)
      ensures !r.Ok? || Reach(old(tables), root, l - 1, q).Some? ==> tables == old(tables) && supply == old(supply)
      ensures r.Ok? && Reach(old(tables), root, l - 1, q).None? ==>
        && g == old(supply)[0] && supply == old(supply)[1..]
        && Present(tables, f, q % 512) == Some(Entry(true, true, true, false, false, g))
    {
      hide Shaped, Spare, Lookup, Reach, Took;
      TableAt(tables, at, root, l, q);
      TookNone(tables, tables, supply, noAlloc);
      var i := q % 512;
      if tables[f][i].p {
        return Ok, tables[f][i].frame;
      }
      if noAlloc {
        return Panic, 0;
      }
      if supply == [] {
        return NoMem, 0;
      }
      g := supply[0];
      var e := Entry(true, true, true, false, false, g);
      HangSpare(supply, tables, f, i, e);
      HangShaped(tables, at, root, f, i, e);
      forall w: nat
        ensures Lookup(Hang(tables, f, i, e), root, w) == Lookup(tables, root, w)
      {
        HangLookup(tables, at, root, f, i, e, w);
      }
      forall l': nat, x: nat
        ensures Reach(Hang(tables, f, i, e), root, l', x)
             == if l' == l - 1 && x == q then Some(g) else Reach(tables, root, l', x)
      {
        HangReach(tables, at, root, f, i, e, l', x);
      }
      forall l': nat, x: nat
        ensures Upper(Hang(tables, f, i, e), root, l', x) == Upper(tables, root, l', x)
      {
        HangUpper(tables, at, root, f, i, e, l', x);
      }
      at := at[g := Pos(l - 1, q)];
      tables := tables[g := Cleared()][f := tables[f][i := e]];
      supply := supply[1..];
      TookOne(old(tables), tables, old(supply));
      r := Ok;
    }

    /** The body of the innermost loop: one page. */
    method MapPage(f: nat, v: nat, job: Job, pi: nat) returns (r: Outcome)
      requires Valid() && Reach(tables, root, 0, v / 512) == Some(f) && job.lo <= v < job.hi && pi == job.PhysAt(v)
      modifies this`tables, this`released
      ensures Valid() && Grown(old(tables), tables, root) && tables.Keys == old(tables).Keys
      ensures r.Ok? ==> Served(old(tables), tables, root, job, v, v + 1, old(released), released)
      ensures !r.Ok? ==> tables == old(tables)
      ensures Excused(old(tables), root, r, supply, job, v)
    {
      ReachPlace(tables, at, root, 0, v / 512);
      var e := tables[f][v % 512];
      if e.p {
        if job.noRemap {
          OccupiedAt(tables, root, supply, job, v);
          return Panic;
        }
        if !job.noRc {
          released := released + [e.frame];
        }
      }
      WritePage(f, v, job.EntryFor(pi));
      r := Ok;
    }

    /** The innermost loop of `kh_mmap`: the pages of one last-level table. */
    method MapPages(f: nat, x: nat, job: Job, pi0: nat) returns (r: Outcome, pi: nat)
      requires Valid() && Reach(tables, root, 0, x) == Some(f) && job.lo <= job.hi && job.lo / 512 <= x
      requires pi0 == job.PhysAt(job.Clamp(x * 512))
      modifies this`tables, this`released
      ensures Valid() && Grown(old(tables), tables, root) && Outside(old(tables), tables, root, job)
      ensures tables.Keys == old(tables).Keys
      ensures r.Ok? ==>
        Served(old(tables), tables, root, job, job.Clamp(x * 512), job.Clamp((x + 1) * 512), old(released), released)
      ensures r.Ok? ==> pi == job.PhysAt(job.Clamp((x + 1) * 512))
      ensures Excused(old(tables), root, r, supply, job, job.Clamp(x * 512))
    {
      hide Mapped, Grown, Outside, Shaped, Dropped, Excused;
      pi := pi0;
      StartPage(job, x);
      GrownSelf(tables, root);
      var v := StartEntry(job, 0, x);
      ghost var a := job.Clamp(x * 512);
      ServedNone(tables, root, job, a, released);
      while v < x * 512 + 512 && v < job.hi
        invariant x * 512 <= v <= x * 512 + 512 && job.lo <= v && a == job.Clamp(x * 512) <= job.Clamp(v)
        invariant Valid() && Grown(old(tables), tables, root) && Reach(tables, root, 0, x) == Some(f)
        invariant tables.Keys == old(tables).Keys
        invariant Served(old(tables), tables, root, job, a, job.Clamp(v), old(released), released)
        invariant pi == job.PhysAt(job.Clamp(v))
        decreases x * 512 + 512 - v
      {
        ghost var was, rel := tables, released;
        MappedOutside(old(tables), was, root, job, a, v);
        EntryTable(v, x);
        r := MapPage(f, v, job, pi);
        GrownChain(old(tables), was, tables, root);
        GrownReach(was, tables, root, 0, x);
        if !r.Ok? {
          ExcusedFrom(old(tables), was, root, r, supply, job, a, v);
          return;
        }
        ServedChain(old(tables), was, tables, root, job, a, v, v + 1, old(released), rel, released);
        PhysStep(job, v);
        pi := pi + job.Diff();
        v := v + 1;
      }
      OkExcused(old(tables), root, supply, job, a);
      EndPage(job, x, v);
      MappedOutside(old(tables), tables, root, job, a, job.Clamp(v));
      r := Ok;
    }

    /** One turn of a loop over the entries of a table of level `l` > 0: the entry `q` gets its
        table, and the pages below are mapped. */
    method MapEntry(l: nat, f: nat, q: nat, job: Job, pi0: nat) returns (r: Outcome, pi: nat)
      requires Valid() && 0 < l <= 3 && Reach(tables, root, l, q / 512) == Some(f) && job.lo < job.hi
      requires job.lo / Span(l) <= q && (q * Span(l) < job.hi || (l == 3 && q == job.hi / Span(3)))
      requires pi0 == job.PhysAt(job.Clamp(q * Span(l)))
      modifies this`tables, this`at, this`supply, this`released
      ensures Valid() && Grown(old(tables), tables, root) && Outside(old(tables), tables, root, job)
      ensures r.Ok? ==> job.Clamp(q * Span(l)) <= job.Clamp((q + 1) * Span(l))
      ensures r.Ok? ==>
        var a, b := job.Clamp(q * Span(l)), job.Clamp((q + 1) * Span(l));
        Served(old(tables), tables, root, job, a, b, old(released), released)
      ensures r.Ok? ==> pi == job.PhysAt(job.Clamp((q + 1) * Span(l)))
      ensures Took(old(tables), old(supply), tables, supply, job.noAlloc)
      ensures Excused(old(tables), root, r, supply, job, job.Clamp(q * Span(l)))
      decreases l, 0
    {
      hide Mapped, Grown, Outside, Shaped, Dropped, SameLookup, Served, Excused, Lacks, Took;
      pi := pi0;
      var g;
      r, g := Child(l, f, q, job.noAlloc);
      SameLookupOutside(old(tables), tables, root, job);
      ghost var a, b := job.Clamp(q * Span(l)), job.Clamp((q + 1) * Span(l));
      if !r.Ok? {
        LacksAt(old(tables), root, job, l, q);
        LackExcuses(old(tables), root, r, supply, job, a);
        return;
      }
      ghost var mid, rest := tables, supply;
      if l == 1 {
        r, pi := MapPages(g, q, job, pi);
        TookNone(mid, tables, supply, job.noAlloc);
      } else {
        r, pi := MapTable(l - 1, g, q, job, pi);
      }
      SameIsMapped(old(tables), mid, root, job, a);
      ExcusedFrom(old(tables), mid, root, r, supply, job, a, a);
      TookChain(old(tables), old(supply), mid, rest, tables, supply, job.noAlloc);
      GrownChain(old(tables), mid, tables, root);
      OutsideChain(old(tables), mid, tables, root, job);
      if r.Ok? {
        ServedFrom(old(tables), mid, tables, root, job, a, b, old(released), released);
      }
    }

    /** The loop over the entries of a table of level 2 or 1. */
    method MapTable(l: nat, f: nat, x: nat, job: Job, pi0: nat) returns (r: Outcome, pi: nat)
      requires Valid() && 1 <= l <= 2 && Reach(tables, root, l, x) == Some(f) && job.lo < job.hi
      requires job.lo / Span(l + 1) <= x
      requires pi0 == job.PhysAt(job.Clamp(x * Span(l + 1)))
      modifies this`tables, this`at, this`supply, this`released
      ensures Valid() && Grown(old(tables), tables, root) && Outside(old(tables), tables, root, job)
      ensures r.Ok? ==> job.Clamp(x * Span(l + 1)) <= job.Clamp((x + 1) * Span(l + 1))
      ensures r.Ok? ==>
        var a, b := job.Clamp(x * Span(l + 1)), job.Clamp((x + 1) * Span(l + 1));
        Served(old(tables), tables, root, job, a, b, old(released), released)
      ensures r.Ok? ==> pi == job.PhysAt(job.Clamp((x + 1) * Span(l + 1)))
      ensures Took(old(tables), old(supply), tables, supply, job.noAlloc)
      ensures Excused(old(tables), root, r, supply, job, job.Clamp(x * Span(l + 1)))
      decreases l, 1
    {
      pi := pi0;
      hide Mapped, Served, Grown, Outside, Shaped, Spare, Dropped, Span, StartEntry, Reach, Excused, Took;
      StartsRight(job, l, x);
      GrownSelf(tables, root);
      TookNone(tables, tables, supply, job.noAlloc);
      var q := StartEntry(job, l, x);
      ghost var a := job.Clamp(x * Span(l + 1));
      ServedNone(tables, root, job, a, released);
      while q < x * 512 + 512 && q * Span(l) < job.hi
        invariant x * 512 <= q <= x * 512 + 512 && job.lo / Span(l) <= q && a <= job.Clamp(q * Span(l))
        invariant Valid() && Grown(old(tables), tables, root) && Reach(tables, root, l, x) == Some(f)
        invariant Took(old(tables), old(supply), tables, supply, job.noAlloc)
        invariant Served(old(tables), tables, root, job, a, job.Clamp(q * Span(l)), old(released), released)
        invariant pi == job.PhysAt(job.Clamp(q * Span(l)))
        decreases x * 512 + 512 - q
      {
        ghost var was, rest, b, rel := tables, supply, job.Clamp(q * Span(l)), released;
        ServedOutside(old(tables), was, root, job, a, b, old(released), rel);
        EntryTable(q, x);
        r, pi := MapEntry(l, f, q, job, pi);
        TookChain(old(tables), old(supply), was, rest, tables, supply, job.noAlloc);
        GrownChain(old(tables), was, tables, root);
        GrownReach(was, tables, root, l, x);
        OutsideChain(old(tables), was, tables, root, job);
        if !r.Ok? {
          ServedMapped(old(tables), was, root, job, a, b, old(released), rel);
          ExcusedFrom(old(tables), was, root, r, supply, job, a, b);
          return;
        }
        ClampGrows(job, l, q);
        ghost var next := job.Clamp((q + 1) * Span(l));
        ServedChain(old(tables), was, tables, root, job, a, b, next, old(released), rel, released);
        q := q + 1;
      }
      EndsRight(job, l, x, q);
      ServedOutside(old(tables), tables, root, job, a, job.Clamp(q * Span(l)), old(released), released);
      OkExcused(old(tables), root, supply, job, a);
      r := Ok;
    }

    /** The outermost loop of `kh_mmap`, over the root table.  `top` is the last root entry, the
        one of the end address. */
    method MapRoot(job: Job, top: nat) returns (r: Outcome)
      requires Valid() && job.lo < job.hi && top < 512 && job.lo / Span(3) < 512
      requires job.lo / Span(3) <= top ==> top == job.hi / Span(3)
      modifies this`tables, this`at, this`supply, this`released
      ensures Valid() && Grown(old(tables), tables, root) && Outside(old(tables), tables, root, job)
      ensures top < job.lo / Span(3) ==> r.Ok? && tables == old(tables) && released == old(released)
      ensures job.lo / Span(3) <= top && r.Ok? ==>
        Served(old(tables), tables, root, job, job.lo, job.Clamp((top + 1) * Span(3)), old(released), released)
      ensures Took(old(tables), old(supply), tables, supply, job.noAlloc)
      ensures Excused(old(tables), root, r, supply, job, job.lo)
    {
      hide Mapped, Served, Grown, Outside, Shaped, Spare, Dropped, Reach, Excused, Took;
      var x := job.lo / Span(3);
      var pi := job.paddr;
      r := Ok;
      RootStarts(tables, root, job, released);
      GrownSelf(tables, root);
      TookNone(tables, tables, supply, job.noAlloc);
      OkExcused(tables, root, supply, job, job.lo);
      while x < top + 1
        invariant job.lo / Span(3) <= x <= (if job.lo / Span(3) <= top then top + 1 else job.lo / Span(3))
        invariant Valid() && r.Ok? && Grown(old(tables), tables, root) && Reach(tables, root, 3, 0) == Some(root)
        invariant Took(old(tables), old(supply), tables, supply, job.noAlloc)
        invariant Served(old(tables), tables, root, job, job.lo, job.Clamp(x * Span(3)), old(released), released)
        invariant pi == job.PhysAt(job.Clamp(x * Span(3)))
        invariant x == job.lo / Span(3) ==> tables == old(tables) && released == old(released)
      {
        ghost var was, rest, b, rel := tables, supply, job.Clamp(x * Span(3)), released;
        ServedOutside(old(tables), was, root, job, job.lo, b, old(released), rel);
        RootSpan(job, x);
        r, pi := MapEntry(3, root, x, job, pi);
        GrownReach(was, tables, root, 3, 0);
        TookChain(old(tables), old(supply), was, rest, tables, supply, job.noAlloc);
        GrownChain(old(tables), was, tables, root);
        OutsideChain(old(tables), was, tables, root, job);
        if !r.Ok? {
          ServedMapped(old(tables), was, root, job, job.lo, b, old(released), rel);
          ExcusedFrom(old(tables), was, root, r, supply, job, job.lo, b);
          return;
        }
        ghost var next := job.Clamp((x + 1) * Span(3));
        ServedChain(old(tables), was, tables, root, job, job.lo, b, next, old(released), rel, released);
        x := x + 1;
      }
      ServedOutside(old(tables), tables, root, job, job.lo, job.Clamp(x * Span(3)), old(released), released);
      OkExcused(old(tables), root, supply, job, job.lo);
    }

    /** `kh_mmap`.  The end address wraps to 0 for a range that reaches the top of the address
        space, and then the outermost loop has no turn: such a request reports success and maps
        nothing.  For every other range success means that the request was served. */
    method Mmap(vaddr: nat, paddr: nat, size: nat, access: Access, noAlloc: bool, noRemap: bool, noRc: bool)
      returns (r: Outcome)
      requires Valid() && Canonical(vaddr) && vaddr % 4096 == 0 && size % 4096 == 0 && vaddr + size <= ADDRESSES
      modifies this`tables, this`at, this`supply, this`released
      ensures Valid() && Grown(old(tables), tables, root) && Took(old(tables), old(supply), tables, supply, noAlloc)
      ensures size == 0 || IsUser(vaddr) != IsUser(vaddr + size - 1) ==> r.Panic? && tables == old(tables)
      ensures 0 < size && IsUser(vaddr) == IsUser(vaddr + size - 1) ==>
        var lo := PageNo(vaddr);
        var job := Job(lo, lo + size / 4096, paddr, access, noAlloc, noRemap, noRc);
        && Outside(old(tables), tables, root, job) && Excused(old(tables), root, r, supply, job, job.lo)
        && (vaddr + size == ADDRESSES ==> r.Ok? && tables == old(tables))
        && (vaddr + size < ADDRESSES && r.Ok? ==>
            Served(old(tables), tables, root, job, job.lo, job.hi, old(released), released))
    {
      hide Mapped, Grown, Outside, Shaped, Dropped, Span, Reach, Served, PageNo, Pml4x, Excused, Took;
      if size == 0 || IsUser(vaddr) != IsUser(vaddr + size - 1) {
        GrownSelf(tables, root);
        TookNone(tables, tables, supply, noAlloc);
        return Panic;
      }
      var limit := (vaddr + size) % ADDRESSES;
      var lo := PageNo(vaddr);
      var job := Job(lo, lo + size / 4096, paddr, access, noAlloc, noRemap, noRc);
      RangeOf(vaddr, size, job);
      r := MapRoot(job, Pml4x(limit));
    }

    /** `kh_getmap`: walks the four tables for one page and reports where it is mapped.  The answer is null for a
        page that is not mapped and for one that is mapped to frame 0; only the access bits differ. */
    method GetMap(vaddr: nat) returns (r: Mapping)
      requires Valid()
      ensures var e := Lookup(tables, root, PageNo(vaddr));
        r == Report(e) && (r.phys == 0 <==> e.None? || e.value.frame == 0) && (r.access.None? <==> e.None?)
    {
      PageDigits(vaddr);
      ghost var v := PageNo(vaddr);
      assert Reach(tables, root, 3, v / 512 / 512 / 512 / 512) == Some(root);
      var e := tables[root][Pml4x(vaddr)];
      assert Reach(tables, root, 2, v / 512 / 512 / 512) == if e.p then Some(e.frame) else None;
      if !e.p {
        return Mapping(0, None);
      }
      ReachPlace(tables, at, root, 2, v / 512 / 512 / 512);
      var pdpt := tables[e.frame];
      e := pdpt[Pdptx(vaddr)];
      assert Reach(tables, root, 1, v / 512 / 512) == if e.p then Some(e.frame) else None;
      if !e.p {
        return Mapping(0, None);
      }
      ReachPlace(tables, at, root, 1, v / 512 / 512);
      var pdt := tables[e.frame];
      e := pdt[Pdx(vaddr)];
      assert Reach(tables, root, 0, v / 512) == if e.p then Some(e.frame) else None;
      if !e.p {
        return Mapping(0, None);
      }
      ReachPlace(tables, at, root, 0, v / 512);
      var ptt := tables[e.frame];
      e := ptt[Ptx(vaddr)];
      if !e.p {
        return Mapping(0, None);
      }
      return Mapping(e.frame * 4096, Some(Access(true, true, e.rw, !e.xd, false, e.u)));
    }
  }

  // ------------------------------------------------------------------ addresses

  const WINDOW: nat := 0x1_0000_0000_0000
  const ADDRESSES: nat := 0x1_0000_0000_0000_0000

  function Pml4x(va: nat): (i: nat)
    ensures i < 512
  {
    (va / 0x80_0000_0000) % 512
  }

  function Pdptx(va: nat): (i: nat)
    ensures i < 512
  {
    (va / 0x4000_0000) % 512
  }

  function Pdx(va: nat): (i: nat)
    ensures i < 512
  {
    (va / 0x20_0000) % 512
  }

  function Ptx(va: nat): (i: nat)
    ensures i < 512
  {
    (va / 4096) % 512
  }

  function AddrPrefix(va: nat): nat {
    va - va % WINDOW
  }

  /** `UVADDR`; the fields do not overlap, so that joining them is adding them. */
  function Uvaddr(pml4x: nat, pdptx: nat, pdx: nat, ptx: nat, offset: nat): nat {
    pml4x * 0x80_0000_0000 + pdptx * 0x4000_0000 + pdx * 0x20_0000 + ptx * 4096 + offset
  }

  /** The number of a virtual page: bits 12 to 47. */
  function PageNo(va: nat): (v: nat)
    ensures v < 0x10_0000_0000
  {
    (va % WINDOW) / 4096
  }

  /** Shifting by 21, 30, 39 and 48 bits is shifting by 12 and then by nines. */
  lemma Shifts(va: nat)
    ensures var p := va / 4096;
      && va / 0x20_0000 == p / 512 && va / 0x4000_0000 == p / 512 / 512
      && va / 0x80_0000_0000 == p / 512 / 512 / 512 && va / WINDOW == p / 512 / 512 / 512 / 512
  {
    var p := va / 4096;
    var p1 := p / 512;
    var p2 := p1 / 512;
    var p3 := p2 / 512;
    var p4 := p3 / 512;
    DivModUnique(va, 0x20_0000, p1, va - p1 * 0x20_0000);
    DivModUnique(va, 0x4000_0000, p2, va - p2 * 0x4000_0000);
    DivModUnique(va, 0x80_0000_0000, p3, va - p3 * 0x80_0000_0000);
    DivModUnique(va, WINDOW, p4, va - p4 * WINDOW);
  }

  /** Taking an address apart and putting it together. */
  lemma AddressRoundTrip(va: nat)
    ensures AddrPrefix(va) + Uvaddr(Pml4x(va), Pdptx(va), Pdx(va), Ptx(va), va % 4096) == va
  {
    Shifts(va);
  }

  lemma IndexRoundTrip(a: nat, b: nat, c: nat, d: nat, off: nat)
    requires a < 512 && b < 512 && c < 512 && d < 512 && off < 4096
    ensures var va := Uvaddr(a, b, c, d, off);
      Pml4x(va) == a && Pdptx(va) == b && Pdx(va) == c && Ptx(va) == d && va % 4096 == off
  {
    var va := Uvaddr(a, b, c, d, off);
    Shifts(va);
    var p := ((a * 512 + b) * 512 + c) * 512 + d;
    DivModUnique(va, 4096, p, off);
    DivModUnique(p, 512, (a * 512 + b) * 512 + c, d);
    DivModUnique((a * 512 + b) * 512 + c, 512, a * 512 + b, c);
    DivModUnique(a * 512 + b, 512, a, b);
  }

  /** The four indices are the digits of the page number. */
  lemma PageDigits(va: nat)
    ensures var v := PageNo(va);
      && v / 512 / 512 / 512 / 512 == 0
      && Pml4x(va) == v / 512 / 512 / 512 % 512 && Pdptx(va) == v / 512 / 512 % 512
      && Pdx(va) == v / 512 % 512 && Ptx(va) == v % 512
  {
    var p := va / 4096;
    var p1 := p / 512;
    var p2 := p1 / 512;
    var p3 := p2 / 512;
    var p4 := p3 / 512;
    var v := PageNo(va);
    Shifts(va);
    DivModUnique(va - p4 * WINDOW, 4096, p - p4 * 0x10_0000_0000, va % 4096);
    assert v == p - p4 * 0x10_0000_0000;
    DivModUnique(v, 512, p1 - p4 * 0x800_0000, p % 512);
    DivModUnique(p1 - p4 * 0x800_0000, 512, p2 - p4 * 0x4_0000, p1 % 512);
    DivModUnique(p2 - p4 * 0x4_0000, 512, p3 - p4 * 512, p2 % 512);
    DivModUnique(p3 - p4 * 512, 512, 0, p3 % 512);
  }

  /** `mm_is_user_space`. */
  predicate IsUser(a: nat) {
    a < 0x8000_0000_0000
  }

  /** Bits 48 to 63 repeat bit 47. */
  predicate Canonical(a: nat) {
    a < 0x8000_0000_0000 || 0xffff_8000_0000_0000 <= a < ADDRESSES
  }

  lemma PageShifts(v: nat)
    ensures v / 512 / 512 / 512 == v / Span(3)
  {
    DivModUnique(v, 0x800_0000, v / 512 / 512 / 512, v - v / 512 / 512 / 512 * 0x800_0000);
  }

  /** The root entry of the end of a range that does not end at the top. */
  lemma EndEntry(vaddr: nat, size: nat, lo: nat, hi: nat)
    requires Canonical(vaddr) && vaddr % 4096 == 0 && size % 4096 == 0 && 0 < size && vaddr + size < ADDRESSES
    requires IsUser(vaddr) == IsUser(vaddr + size - 1) && lo == PageNo(vaddr) && hi == lo + size / 4096
    ensures Pml4x(vaddr + size) == hi / Span(3) && lo / Span(3) <= hi / Span(3) && hi < (hi / Span(3) + 1) * Span(3)
    ensures lo / Span(3) < 512
  {
    hide PageNo, Pml4x;
    var k := if IsUser(vaddr) then 0 else 0xffff;
    PageOf(vaddr, k);
    MultipleSum(vaddr, size, 4096);
    EndOf(vaddr + size, k, hi);
    RootEntry(lo, hi);
  }

  lemma StartEntryBelow(vaddr: nat)
    requires Canonical(vaddr) && vaddr % 4096 == 0
    ensures PageNo(vaddr) / Span(3) < 512 && (vaddr >= 0xffff_8000_0000_0000 ==> 0 < PageNo(vaddr) / Span(3))
  {
    hide PageNo;
    PageOf(vaddr, if IsUser(vaddr) then 0 else 0xffff);
  }

  /** The page numbers of a range, and the root entries its loop runs over. */
  lemma RangeOf(vaddr: nat, size: nat, job: Job)
    requires Canonical(vaddr) && vaddr % 4096 == 0 && size % 4096 == 0 && 0 < size && vaddr + size <= ADDRESSES
    requires IsUser(vaddr) == IsUser(vaddr + size - 1)
    requires job.lo == PageNo(vaddr) && job.hi == job.lo + size / 4096
    ensures var top := Pml4x((vaddr + size) % ADDRESSES);
      && job.lo / Span(3) < 512
      && (vaddr + size == ADDRESSES ==> top < job.lo / Span(3))
      && (vaddr + size < ADDRESSES ==>
          job.lo / Span(3) <= top == job.hi / Span(3) && job.Clamp((top + 1) * Span(3)) == job.hi)
  {
    hide PageNo, Pml4x, Span;
    StartEntryBelow(vaddr);
    if vaddr + size < ADDRESSES {
      EndEntry(vaddr, size, job.lo, job.hi);
    } else {
      TopOfZero();
    }
  }

  /** The page that the entries of four loops lead to, and its number. */
  lemma PageOfEntries(a: nat, b: nat, c: nat, d: nat)
    requires a < 512 && b < 512 && c < 512 && d < 512
    ensures Uvaddr(a, b, c, d, 0) == (((a * 512 + b) * 512 + c) * 512 + d) * 4096 < WINDOW
    ensures PageNo(Uvaddr(a, b, c, d, 0)) == ((a * 512 + b) * 512 + c) * 512 + d
  {
    var va := Uvaddr(a, b, c, d, 0);
    IndexRoundTrip(a, b, c, d, 0);
    AddressRoundTrip(va);
    PageOf(va, 0);
  }

  /** The guards of the inner loops of `kh_mmap` compare the address put together from the prefix and the
      entries with the end address; that is comparing the page number with the end of the range. */
  lemma GuardIff(vaddr: nat, size: nat, a: nat, b: nat, c: nat, d: nat)
    requires Canonical(vaddr) && vaddr % 4096 == 0 && size % 4096 == 0 && 0 < size && vaddr + size < ADDRESSES
    requires a < 512 && b < 512 && c < 512 && d < 512
    ensures AddrPrefix(vaddr) + Uvaddr(a, b, c, d, 0) >= vaddr + size <==>
      ((a * 512 + b) * 512 + c) * 512 + d >= PageNo(vaddr) + size / 4096
    ensures AddrPrefix(vaddr) % WINDOW == 0 && Uvaddr(a, b, c, d, 0) < WINDOW
  {
    hide PageNo, Uvaddr;
    PageOfEntries(a, b, c, d);
    PrefixAndPage(vaddr);
  }

  lemma PrefixAndPage(vaddr: nat)
    requires Canonical(vaddr) && vaddr % 4096 == 0
    ensures AddrPrefix(vaddr) + PageNo(vaddr) * 4096 == vaddr && AddrPrefix(vaddr) % WINDOW == 0
  {
    hide PageNo;
    var k := if IsUser(vaddr) then 0 else 0xffff;
    PageOf(vaddr, k);
    DivModUnique(vaddr, WINDOW, k, vaddr - k * WINDOW);
    MultipleMod(WINDOW, k);
  }

  lemma TopOfZero()
    ensures Pml4x(0) == 0
  {
  }

  lemma EndOf(a: nat, k: nat, hi: nat)
    requires a % 4096 == 0 && k * WINDOW <= a < (k + 1) * WINDOW && a - k * WINDOW == hi * 4096
    ensures Pml4x(a) == hi / Span(3) % 512
  {
    PageOf(a, k);
    PageDigits(a);
    PageShifts(hi);
  }

  lemma PageOf(a: nat, k: nat)
    requires a % 4096 == 0 && k * WINDOW <= a < (k + 1) * WINDOW
    ensures PageNo(a) * 4096 == a - k * WINDOW
  {
    DivModUnique(a, WINDOW, k, a - k * WINDOW);
    MultipleMod(4096, k * 0x10_0000_0000);
    assert k * WINDOW == k * 0x10_0000_0000 * 4096;
    MultipleSum(a, k * WINDOW, 4096);
  }

  lemma RootEntry(lo: nat, hi: nat)
    requires lo <= hi < 0x10_0000_0000
    ensures hi / Span(3) % 512 == hi / Span(3) && lo / Span(3) <= hi / Span(3) && hi < (hi / Span(3) + 1) * Span(3)
  {
  }

  lemma RootStarts(t: Tables, root: nat, job: Job, rel: seq<nat>)
    requires job.lo <= job.hi
    ensures job.Clamp(job.lo / Span(3) * Span(3)) == job.lo
    ensures Served(t, t, root, job, job.lo, job.lo, rel, rel) && Reach(t, root, 3, 0) == Some(root)
  {
    ServedNone(t, root, job, job.lo, rel);
  }

  /** The entry of a page after a served request: the bits asked for; the frames in order from a physical
      address on, or frame 0 for every page where the address is null. */
  lemma ServedEntry(was: Tables, now: Tables, root: nat, job: Job, rel: seq<nat>, rel': seq<nat>, v: nat)
    requires job.lo <= v < job.hi && Served(was, now, root, job, job.lo, job.hi, rel, rel') && job.access.mapped
    ensures Lookup(now, root, v).Some?
    ensures var e := Lookup(now, root, v).value;
      && e.p && e.rw == job.access.write && e.u == job.access.user
      && e.cd == job.access.nocache && e.xd == !job.access.exec
      && (job.paddr == 0 ==> e.frame == 0)
      && (job.paddr != 0 && job.paddr % 4096 == 0 && job.paddr + (job.hi - job.lo) * 4096 <= 0x10_0000_0000_0000 ==>
          e.frame * 4096 == job.paddr + (v - job.lo) * 4096)
  {
    hide Lookup, Served, Dropped;
    if job.paddr != 0 && job.paddr % 4096 == 0 && job.paddr + (job.hi - job.lo) * 4096 <= 0x10_0000_0000_0000 {
      FrameOf(job, v);
    }
    ServedMapped(was, now, root, job, job.lo, job.hi, rel, rel');
    assert Lookup(now, root, v) == job.Expected(v);
  }

  /** A served request is answered page by page with the memory asked for, and with null where that is. */
  lemma ServedReports(was: Tables, now: Tables, root: nat, job: Job, rel: seq<nat>, rel': seq<nat>, v: nat)
    requires job.lo <= v < job.hi && Served(was, now, root, job, job.lo, job.hi, rel, rel')
    requires job.access.mapped && job.paddr % 4096 == 0
    requires job.paddr != 0 ==> job.paddr + (job.hi - job.lo) * 4096 <= 0x10_0000_0000_0000
    ensures var phys := if job.paddr == 0 then 0 else job.paddr + (v - job.lo) * 4096;
      Report(Lookup(now, root, v)) == Mapping(phys, Some(job.access.(read := true, nocache := false)))
  {
    hide Served, Lookup;
    ServedEntry(was, now, root, job, rel, rel', v);
  }

  /** The rights of a served page over its whole walk: what was asked for, as far as the entries that were on
      the way before let it through; so exactly what was asked for if and only if they let all of it through. */
  lemma ServedRights(was: Tables, now: Tables, root: nat, job: Job, rel: seq<nat>, rel': seq<nat>, v: nat)
    requires job.lo <= v < job.hi && Served(was, now, root, job, job.lo, job.hi, rel, rel') && Grown(was, now, root)
    requires job.access.mapped
    ensures var up, asked := Upper(was, root, 0, v / 512), job.access;
      && PageRights(now, root, v)
           == Some(Rights(up.write && asked.write, up.user && asked.user, up.exec && asked.exec))
      && (PageRights(now, root, v) == Some(Rights(asked.write, asked.user, asked.exec)) <==>
          (asked.write ==> up.write) && (asked.user ==> up.user) && (asked.exec ==> up.exec))
  {
    hide Served, Lookup, Upper;
    ServedEntry(was, now, root, job, rel, rel', v);
    assert Upper(now, root, 0, v / 512) == Upper(was, root, 0, v / 512);
  }

  /** Nothing is on the way in a new address space. */
  lemma {:induction false} NewUpper(root: nat, l: nat, x: nat)
    ensures Upper(map[root := Cleared()], root, l, x) == ALL
    decreases 3 - l
  {
    if l < 3 {
      NewUpper(root, l + 1, x / 512);
      UpperStep(map[root := Cleared()], root, l, x);
    }
  }

  /** The first page mapped in a new address space can be used as asked. */
  method FirstMapping(root: nat, frames: seq<nat>, vaddr: nat, paddr: nat, access: Access)
    returns (space: AddressSpace, r: Outcome)
    requires forall i :: 0 <= i < |frames| ==> frames[i] != root && frames[i] != 0
    requires forall i, j :: 0 <= i < j < |frames| ==> frames[i] != frames[j]
    requires IsUser(vaddr) && vaddr % 4096 == 0 && access.mapped
    ensures r.NoMem? ==> space.supply == []
    ensures !r.Panic?
    ensures r.Ok? ==>
      PageRights(space.tables, space.root, PageNo(vaddr)) == Some(Rights(access.write, access.user, access.exec))
  {
    hide Lookup, PageNo, Served, Grown, Upper, PageRights, Took, Outside, Reach, Lacks, Occupied;
    space := new AddressSpace(root, frames);
    ghost var was := space.tables;
    r := space.Mmap(vaddr, paddr, 4096, access, false, false, false);
    NewUpper(root, 0, PageNo(vaddr) / 512);
    if r.Ok? {
      var job := Job(PageNo(vaddr), PageNo(vaddr) + 1, paddr, access, false, false, false);
      ServedRights(was, space.tables, space.root, job, [], space.released, PageNo(vaddr));
    }
  }

  lemma FrameOf(job: Job, v: nat)
    requires job.lo <= v < job.hi && job.paddr != 0 && job.paddr % 4096 == 0
    requires job.paddr + (job.hi - job.lo) * 4096 <= 0x10_0000_0000_0000
    ensures job.EntryFor(job.PhysAt(v)).frame * 4096 == job.paddr + (v - job.lo) * 4096
  {
    MultipleSum(job.paddr, (v - job.lo) * 4096, 4096);
  }

  lemma ClampGrows(job: Job, l: nat, q: nat)
    requires job.lo <= job.hi
    ensures job.Clamp(q * Span(l)) <= job.Clamp((q + 1) * Span(l))
  {
  }

  lemma EntryTable(q: nat, x: nat)
    requires x * 512 <= q < x * 512 + 512
    ensures q / 512 == x
  {
  }

  lemma PhysStep(job: Job, v: nat)
    requires job.lo <= v
    ensures job.PhysAt(v + 1) == job.PhysAt(v) + job.Diff()
  {
  }

  lemma ServedNone(t: Tables, root: nat, job: Job, a: nat, rel: seq<nat>)
    requires job.lo <= a
    ensures Served(t, t, root, job, a, a, rel, rel)
  {
  }

  lemma ServedChain(was: Tables, mid: Tables, now: Tables, root: nat, job: Job, a: nat, b: nat, c: nat,
                    rel: seq<nat>, rel': seq<nat>, rel'': seq<nat>)
    requires job.lo <= a <= b <= c
    requires Served(was, mid, root, job, a, b, rel, rel') && Served(mid, now, root, job, b, c, rel', rel'')
    ensures Served(was, now, root, job, a, c, rel, rel'')
  {
    DroppedSame(was, mid, root, b, c);
    DroppedJoin(was, root, a, b, c);
  }

  lemma ServedFrom(was: Tables, mid: Tables, now: Tables, root: nat, job: Job, a: nat, b: nat,
                   rel: seq<nat>, rel': seq<nat>)
    requires job.lo <= a <= b && Served(mid, now, root, job, a, b, rel, rel')
    requires SameLookup(was, mid, root)
    ensures Served(was, now, root, job, a, b, rel, rel')
  {
    DroppedSame(was, mid, root, a, b);
  }

  lemma {:induction false} DroppedSame(t: Tables, t': Tables, root: nat, a: nat, b: nat)
    requires a <= b && forall w: nat :: a <= w < b ==> Lookup(t', root, w) == Lookup(t, root, w)
    ensures Dropped(t', root, a, b) == Dropped(t, root, a, b)
    decreases b
  {
    hide Lookup;
    if a < b {
      DroppedSame(t, t', root, a, b - 1);
    }
  }

  lemma {:induction false} DroppedJoin(t: Tables, root: nat, a: nat, b: nat, c: nat)
    requires a <= b <= c
    ensures Dropped(t, root, a, c) == Dropped(t, root, a, b) + Dropped(t, root, b, c)
    decreases c
  {
    if b < c {
      DroppedJoin(t, root, a, b, c - 1);
    }
  }

  lemma ServedMapped(was: Tables, now: Tables, root: nat, job: Job, a: nat, b: nat, rel: seq<nat>, rel': seq<nat>)
    requires job.lo <= a <= b && Served(was, now, root, job, a, b, rel, rel')
    ensures Mapped(was, now, root, job, a, b)
  {
  }

  lemma ServedOutside(was: Tables, now: Tables, root: nat, job: Job, a: nat, b: nat, rel: seq<nat>, rel': seq<nat>)
    requires job.lo <= a <= b <= job.hi && Served(was, now, root, job, a, b, rel, rel')
    ensures Outside(was, now, root, job)
  {
    MappedOutside(was, now, root, job, a, b);
  }

  lemma MappedOutside(was: Tables, now: Tables, root: nat, job: Job, a: nat, b: nat)
    requires job.lo <= a && b <= job.hi && Mapped(was, now, root, job, a, b)
    ensures Outside(was, now, root, job)
  {
  }

  lemma NothingIn(root: nat, v: nat)
    ensures Lookup(map[root := Cleared()], root, v) == None
  {
    var t := map[root := Cleared()];
    ReachTop(t, root, 3, v / 512 / 512 / 512 / 512);
    ReachEntered(t, root, 2, v / 512 / 512 / 512);
    ReachEntered(t, root, 1, v / 512 / 512);
    ReachEntered(t, root, 0, v / 512);
  }

  /** A request that reaches the top of the address space reports success and maps nothing: the last
      page is not found afterwards. */
  method TopPageIsMissed(access: Access) returns (r: Outcome, found: Mapping)
    ensures r.Ok? && found == Mapping(0, None)
  {
    hide Lookup, PageNo;
    var top := ADDRESSES - 4096;
    var space := new AddressSpace(1, []);
    NothingIn(1, PageNo(top));
    r := space.Mmap(top, 0x1000, 4096, access, false, false, false);
    found := space.GetMap(top);
  }
}
