/** Physical pages, reference counts and three-level page tables as one value.

    A page of physical memory is a frame of 512 words.  The same frames hold page
    tables and user data, so a word is a page-table entry whoever wrote it; only the
    shape invariant below keeps user data from being walked as a table. */
module PageTables {
  import opened MemoryMap

  const NPAGE: nat := 0x40000   // pages of physical memory

  datatype Perm = Perm(user: bool, ro: bool, library: bool)

  /** Permissions that the kernel puts on a link to a lower table. */
  const LINK: Perm := Perm(true, false, false)

  /** A page-table word: VALID clear, or a page number with its permission bits. */
  datatype Pte = Zero | Entry(ppn: nat, perm: Perm)

  type Frame = seq<Pte>

  /** A page after bzero. */
  function Empty(): (f: Frame)
    ensures |f| == PTSZ && forall x | 0 <= x < PTSZ :: f[x] == Zero
  {
    seq(PTSZ, _ => Zero)
  }

  /** The three table indices of a page-aligned virtual address below 2^39. */
  datatype Va = Va(i: nat, j: nat, k: nat) {
    predicate InRange() { i < PTSZ && i != SELF && j < PTSZ && k < PTSZ }
  }

  /** vis: allocation bitmap; refs: reference counts; pinned: references taken at boot;
      roots: pages that are the page directory of some environment. */
  datatype Mem = Mem(vis: seq<bool>, refs: seq<nat>, frames: seq<Frame>, pinned: seq<nat>, roots: set<nat>)

  /** A place that can hold a counted reference to a page.  `r` names the address space. */
  datatype Site =
    | Root(r: nat)
    | Dir(r: nat, i: nat)
    | Mid(r: nat, i: nat, j: nat)
    | Leaf(r: nat, va: Va)

  predicate Sized(m: Mem) {
    && |m.vis| == |m.refs| == |m.frames| == |m.pinned| == NPAGE
    && (forall t | 0 <= t < NPAGE :: |m.frames[t]| == PTSZ)
    && (forall r | r in m.roots :: r < NPAGE)
  }

  function Slot(m: Mem, t: nat, x: nat): Pte {
    if t < |m.frames| && x < |m.frames[t]| then m.frames[t][x] else Zero
  }

  function DirAt(m: Mem, r: nat, i: nat): Pte {
    if r in m.roots && i != SELF then Slot(m, r, i) else Zero
  }

  function MidAt(m: Mem, r: nat, i: nat, j: nat): Pte {
    match DirAt(m, r, i)
    case Zero => Zero
    case Entry(t, _) => Slot(m, t, j)
  }

  /** The translation of a virtual address: what the hardware walk finds. */
  function Translate(m: Mem, r: nat, va: Va): Pte {
    match MidAt(m, r, va.i, va.j)
    case Zero => Zero
    case Entry(t, _) => Slot(m, t, va.k)
  }

  function At(m: Mem, s: Site): Pte {
    match s
    case Root(r) => if r in m.roots then Entry(r, LINK) else Zero
    case Dir(r, i) => DirAt(m, r, i)
    case Mid(r, i, j) => MidAt(m, r, i, j)
    case Leaf(r, va) => Translate(m, r, va)
  }

  predicate RefersTo(m: Mem, s: Site, p: nat) {
    At(m, s).Entry? && At(m, s).ppn == p
  }

  /** Every place that can hold a reference at all. */
  ghost function Places(roots: set<nat>): set<Site> {
    (set r | r in roots :: Root(r))
    + (set r, i | r in roots && 0 <= i < PTSZ :: Dir(r, i))
    + (set r, i, j | r in roots && 0 <= i < PTSZ && 0 <= j < PTSZ :: Mid(r, i, j))
    + (set r, i, j, k | r in roots && 0 <= i < PTSZ && 0 <= j < PTSZ && 0 <= k < PTSZ :: Leaf(r, Va(i, j, k)))
  }

  lemma OccupiedIsPlace(m: Mem, s: Site)
    requires Sized(m) && At(m, s).Entry?
    ensures s in Places(m.roots)
  {
    match s
    case Root(r) =>
    case Dir(r, i) =>
    case Mid(r, i, j) =>
      assert DirAt(m, r, i).Entry?;
    case Leaf(r, va) =>
      assert MidAt(m, r, va.i, va.j).Entry? && DirAt(m, r, va.i).Entry?;
      assert va == Va(va.i, va.j, va.k);
  }

  /** The references to page p in all address spaces: leaf entries, table links and roots. */
  ghost function Holders(m: Mem, p: nat): (h: set<Site>)
    requires Sized(m)
    ensures forall s :: s in h <==> RefersTo(m, s, p)
  {
    forall s | RefersTo(m, s, p) ensures s in Places(m.roots) {
      OccupiedIsPlace(m, s);
    }
    set s | s in Places(m.roots) && RefersTo(m, s, p)
  }

  /** p is a directory or a lower-level table. */
  ghost predicate IsTable(m: Mem, p: nat) {
    exists s: Site :: !s.Leaf? && RefersTo(m, s, p)
  }

  /** Reference-count conservation. */
  ghost predicate Conserved(m: Mem) requires Sized(m) {
    forall p: nat | p < NPAGE :: m.refs[p] == m.pinned[p] + |Holders(m, p)|
  }

  /** Only the one direction: an allocated page may still have a zero count. */
  ghost predicate CountedIsAllocated(m: Mem) requires Sized(m) {
    forall p: nat | p < NPAGE && m.refs[p] > 0 :: m.vis[p]
  }

  ghost predicate InBounds(m: Mem) {
    forall s: Site | At(m, s).Entry? :: At(m, s).ppn < NPAGE
  }

  /** A table has exactly one reference, and no boot reference: the tables form disjoint trees. */
  ghost predicate Trees(m: Mem) requires Sized(m) {
    forall s: Site, s': Site |
      !s.Leaf? && At(m, s).Entry? && At(m, s').Entry? && At(m, s).ppn == At(m, s').ppn :: s == s'
  }

  ghost predicate TablesUnpinned(m: Mem) requires Sized(m) {
    forall s: Site | !s.Leaf? && At(m, s).Entry? && At(m, s).ppn < NPAGE :: m.pinned[At(m, s).ppn] == 0
  }

  ghost predicate Valid(m: Mem)
    ensures Valid(m) ==> Sized(m)
  {
    Sized(m) && Conserved(m) && CountedIsAllocated(m) && InBounds(m) && Trees(m) && TablesUnpinned(m)
  }

  /** m' differs from m in what exactly one site holds. */
  ghost predicate OnlyAt(m: Mem, m': Mem, s: Site, e: Pte) {
    forall x: Site :: At(m', x) == if x == s then e else At(m, x)
  }

  ghost predicate SameSites(m: Mem, m': Mem) {
    forall x: Site :: At(m', x) == At(m, x)
  }

  /** One word of one frame is rewritten; counts and bits may change as well. */
  ghost predicate Wrote(m: Mem, m': Mem, t: nat, x: nat, e: Pte)
    requires Sized(m)
  {
    && t < NPAGE && x < PTSZ
    && m'.frames == m.frames[t := m.frames[t][x := e]]
    && m'.roots == m.roots && m'.pinned == m.pinned
  }

  /** Site s is word x of the table in page t. */
  predicate WordOf(m: Mem, s: Site, t: nat, x: nat) {
    match s
    case Root(_) => false
    case Dir(r, i) => r in m.roots && i < PTSZ && i != SELF && t == r && x == i
    case Mid(r, i, j) => i != SELF && j < PTSZ && DirAt(m, r, i).Entry? && t == DirAt(m, r, i).ppn && x == j
    case Leaf(r, va) => va.InRange() && MidAt(m, r, va.i, va.j).Entry? && t == MidAt(m, r, va.i, va.j).ppn && x == va.k
  }

  lemma WriteLeaf(m: Mem, m': Mem, r: nat, va: Va, e: Pte)
    requires Valid(m) && va.InRange() && MidAt(m, r, va.i, va.j).Entry?
    requires Wrote(m, m', MidAt(m, r, va.i, va.j).ppn, va.k, e)
    ensures OnlyAt(m, m', Leaf(r, va), e)
  {
    var t := MidAt(m, r, va.i, va.j).ppn;
    assert RefersTo(m, Mid(r, va.i, va.j), t);
    forall x: Site ensures At(m', x) == if x == Leaf(r, va) then e else At(m, x) {
      TableOf(m, x, t, Mid(r, va.i, va.j));
      match x
      case Root(_) =>
      case Dir(q, i) =>
      case Mid(q, i, j) =>
        assert DirAt(m', q, i) == DirAt(m, q, i) by { TableOf(m, Dir(q, i), t, Mid(r, va.i, va.j)); }
      case Leaf(q, w) =>
        assert DirAt(m', q, w.i) == DirAt(m, q, w.i) by { TableOf(m, Dir(q, w.i), t, Mid(r, va.i, va.j)); }
        assert MidAt(m', q, w.i, w.j) == MidAt(m, q, w.i, w.j) by { TableOf(m, Mid(q, w.i, w.j), t, Mid(r, va.i, va.j)); }
        assert w == va <==> w.i == va.i && w.j == va.j && w.k == va.k;
    }
  }

  /** The table whose word is read at site x is t only when x lies below the one link to t. */
  lemma TableOf(m: Mem, x: Site, t: nat, link: Site)
    requires Valid(m) && !link.Leaf? && RefersTo(m, link, t)
    ensures x.Dir? && x.r in m.roots && x.r == t ==> link == Root(x.r)
    ensures x.Mid? && RefersTo(m, Dir(x.r, x.i), t) ==> link == Dir(x.r, x.i)
    ensures x.Leaf? && RefersTo(m, Mid(x.r, x.va.i, x.va.j), t) ==> link == Mid(x.r, x.va.i, x.va.j)
  {
    if x.Dir? && x.r in m.roots && x.r == t {
      assert At(m, Root(x.r)).Entry? && At(m, link).Entry?;
    }
    if x.Mid? && RefersTo(m, Dir(x.r, x.i), t) {
      assert At(m, link).Entry?;
    }
  }

  /** Linking a zeroed lower table, or cutting an empty one, changes one middle-level site. */
  lemma WriteMid(m: Mem, m': Mem, r: nat, i: nat, j: nat, e: Pte)
    requires Valid(m) && i != SELF && j < PTSZ && DirAt(m, r, i).Entry?
    requires Wrote(m, m', DirAt(m, r, i).ppn, j, e)
    requires forall k: nat :: Translate(m, r, Va(i, j, k)).Zero?
    requires e.Entry? ==> forall k: nat :: Slot(m', e.ppn, k).Zero?
    ensures OnlyAt(m, m', Mid(r, i, j), e)
  {
    var t := DirAt(m, r, i).ppn;
    assert RefersTo(m, Dir(r, i), t);
    forall x: Site ensures At(m', x) == if x == Mid(r, i, j) then e else At(m, x) {
      TableOf(m, x, t, Dir(r, i));
      match x
      case Root(_) =>
      case Dir(q, d) =>
      case Mid(q, d, n) =>
        assert DirAt(m', q, d) == DirAt(m, q, d) by { TableOf(m, Dir(q, d), t, Dir(r, i)); }
      case Leaf(q, w) =>
        assert DirAt(m', q, w.i) == DirAt(m, q, w.i) by { TableOf(m, Dir(q, w.i), t, Dir(r, i)); }
        TableOf(m, Mid(q, w.i, w.j), t, Dir(r, i));
        if q == r && w.i == i && w.j == j {
          assert w == Va(i, j, w.k);
        } else {
          assert MidAt(m', q, w.i, w.j) == MidAt(m, q, w.i, w.j);
        }
    }
  }

  lemma WriteDir(m: Mem, m': Mem, r: nat, i: nat, e: Pte)
    requires Valid(m) && i != SELF && i < PTSZ && r in m.roots
    requires Wrote(m, m', r, i, e)
    requires forall j: nat :: MidAt(m, r, i, j).Zero?
    requires e.Entry? ==> forall j: nat :: Slot(m', e.ppn, j).Zero?
    ensures OnlyAt(m, m', Dir(r, i), e)
  {
    assert RefersTo(m, Root(r), r);
    forall x: Site ensures At(m', x) == if x == Dir(r, i) then e else At(m, x) {
      TableOf(m, x, r, Root(r));
      match x
      case Root(_) =>
      case Dir(q, d) =>
      case Mid(q, d, n) =>
        TableOf(m, Dir(q, d), r, Root(r));
        if !(q == r && d == i) { assert DirAt(m', q, d) == DirAt(m, q, d); }
      case Leaf(q, w) =>
        TableOf(m, Dir(q, w.i), r, Root(r));
        if q == r && w.i == i {
          assert MidAt(m', q, w.i, w.j).Zero?;
        } else {
          assert DirAt(m', q, w.i) == DirAt(m, q, w.i);
          TableOf(m, Mid(q, w.i, w.j), r, Root(r));
          assert MidAt(m', q, w.i, w.j) == MidAt(m, q, w.i, w.j);
        }
    }
  }

  /** Whatever is stored in a page that is no table, no site changes. */
  lemma WriteData(m: Mem, m': Mem, p: nat, f: Frame)
    requires p < |m.frames| && !IsTable(m, p)
    requires m'.frames == m.frames[p := f] && m'.roots == m.roots
    ensures SameSites(m, m')
  {
    forall x: Site ensures At(m', x) == At(m, x) {
      match x
      case Root(_) =>
      case Dir(q, i) =>
        NotTable(m, p, Root(q));
      case Mid(q, i, j) =>
        NotTable(m, p, Root(q)); NotTable(m, p, Dir(q, i));
      case Leaf(q, w) =>
        NotTable(m, p, Root(q)); NotTable(m, p, Dir(q, w.i)); NotTable(m, p, Mid(q, w.i, w.j));
    }
  }

  lemma NotTable(m: Mem, p: nat, s: Site)
    requires !IsTable(m, p) && !s.Leaf?
    ensures !RefersTo(m, s, p)
  {
  }

  /** Counts after one site goes from empty to p: exactly p gains one holder. */
  lemma GainHolder(m: Mem, m': Mem, s: Site, e: Pte)
    requires Sized(m) && Sized(m') && OnlyAt(m, m', s, e) && At(m, s).Zero? && e.Entry?
    ensures forall q: nat :: |Holders(m', q)| == |Holders(m, q)| + if q == e.ppn then 1 else 0
  {
    forall q: nat ensures |Holders(m', q)| == |Holders(m, q)| + if q == e.ppn then 1 else 0 {
      assert forall x :: RefersTo(m', x, q) <==> RefersTo(m, x, q) || (x == s && q == e.ppn);
      assert Holders(m', q) == if q == e.ppn then Holders(m, q) + {s} else Holders(m, q);
    }
  }

  lemma LoseHolder(m: Mem, m': Mem, s: Site)
    requires Sized(m) && Sized(m') && OnlyAt(m, m', s, Zero) && At(m, s).Entry?
    ensures forall q: nat :: |Holders(m', q)| == |Holders(m, q)| - if q == At(m, s).ppn then 1 else 0
  {
    GainHolder(m', m, s, At(m, s));
  }

  lemma SameHolders(m: Mem, m': Mem)
    requires Sized(m) && Sized(m') && SameSites(m, m')
    ensures forall q: nat :: Holders(m', q) == Holders(m, q)
  {
    forall q: nat ensures Holders(m', q) == Holders(m, q) {
      assert forall x :: RefersTo(m', x, q) <==> RefersTo(m, x, q);
    }
  }

  /** A new reference, counted, keeps the whole invariant. */
  lemma GainKeepsValid(m: Mem, m': Mem, s: Site, e: Pte)
    requires Valid(m) && Sized(m') && OnlyAt(m, m', s, e) && At(m, s).Zero? && e.Entry? && e.ppn < NPAGE
    requires m'.pinned == m.pinned && m'.vis == m.vis && m.vis[e.ppn]
    requires m'.refs == m.refs[e.ppn := m.refs[e.ppn] + 1]
    requires if s.Leaf? then !IsTable(m, e.ppn) else m.refs[e.ppn] == 0
    ensures Valid(m')
  {
    GainHolder(m, m', s, e);
    if !s.Leaf? { Unreferenced(m, e.ppn); }
    forall x: Site | (!s.Leaf? || !x.Leaf?) && At(m, x).Entry?
      ensures At(m, x).ppn != e.ppn
    {
      assert RefersTo(m, x, e.ppn) <==> At(m, x).ppn == e.ppn;
    }
  }

  lemma Unreferenced(m: Mem, p: nat)
    requires Valid(m) && p < NPAGE && m.refs[p] == 0
    ensures forall s: Site :: !RefersTo(m, s, p)
    ensures m.pinned[p] == 0 && !IsTable(m, p)
  {
    assert |Holders(m, p)| == 0;
  }

  /** A reference dropped, uncounted and its page freed at zero, keeps the whole invariant. */
  lemma LoseKeepsValid(m: Mem, m': Mem, s: Site)
    requires Valid(m) && Sized(m') && OnlyAt(m, m', s, Zero) && At(m, s).Entry?
    requires m'.pinned == m.pinned
    requires m.refs[At(m, s).ppn] > 0
    requires var p := At(m, s).ppn; var c := m.refs[p] - 1;
             m'.refs == m.refs[p := c] && m'.vis == m.vis[p := m.vis[p] && c > 0]
    ensures Valid(m')
  {
    LoseHolder(m, m', s);
  }

  lemma HeldIsCounted(m: Mem, s: Site)
    requires Valid(m) && At(m, s).Entry?
    ensures At(m, s).ppn < NPAGE && m.refs[At(m, s).ppn] > 0 && m.vis[At(m, s).ppn]
  {
    var p := At(m, s).ppn;
    assert s in Holders(m, p) && |Holders(m, p)| > 0;
  }

  /** page_alloc's effect: p becomes allocated and is zeroed. */
  function Allocated(m: Mem, p: nat): Mem
    requires Sized(m) && p < NPAGE
  {
    m.(vis := m.vis[p := true], frames := m.frames[p := Empty()])
  }

  lemma AllocKeepsValid(m: Mem, p: nat)
    requires Valid(m) && p < NPAGE && !m.vis[p]
    ensures Valid(Allocated(m, p)) && SameSites(m, Allocated(m, p))
    ensures forall s: Site :: !RefersTo(Allocated(m, p), s, p)
    ensures !IsTable(Allocated(m, p), p)
  {
    Unreferenced(m, p);
    WriteData(m, Allocated(m, p), p, Empty());
    SameHolders(m, Allocated(m, p));
    assert forall s: Site :: RefersTo(Allocated(m, p), s, p) <==> RefersTo(m, s, p);
  }

  /** Between m and m' only tables were added: no translation changed and no page that was
      allocated was touched, other than tables that received links. */
  ghost predicate GrewTables(m: Mem, m': Mem)
    requires Sized(m) && Sized(m')
  {
    && m'.roots == m.roots && m'.pinned == m.pinned
    && (forall r: nat, va: Va :: Translate(m', r, va) == Translate(m, r, va))
    && (forall p: nat | p < NPAGE && m.vis[p] :: m'.vis[p] && m'.refs[p] == m.refs[p])
    && (forall p: nat | p < NPAGE && m.vis[p] && !IsTable(m, p) :: !IsTable(m', p) && m'.frames[p] == m.frames[p])
    && (forall s: Site | At(m, s).Entry? :: At(m', s) == At(m, s))
  }

  lemma TableStays(m: Mem, m': Mem, p: nat)
    requires Sized(m) && Sized(m') && GrewTables(m, m') && p < NPAGE && m.vis[p]
    ensures IsTable(m', p) <==> IsTable(m, p)
  {
    if IsTable(m, p) {
      var s: Site :| !s.Leaf? && RefersTo(m, s, p);
      assert RefersTo(m', s, p);
    }
  }

  lemma GrewTablesTransitive(a: Mem, b: Mem, c: Mem)
    requires Sized(a) && Sized(b) && Sized(c) && GrewTables(a, b) && GrewTables(b, c)
    ensures GrewTables(a, c)
  {
  }

  ghost function FreePages(m: Mem): set<nat> requires Sized(m) {
    set p: nat | p < NPAGE && !m.vis[p]
  }

  /** At most n pages fewer are free. */
  ghost predicate Spent(m: Mem, m': Mem, n: nat) requires Sized(m) && Sized(m') {
    |FreePages(m)| <= |FreePages(m')| + n
  }

  lemma AllocationSpendsOne(m: Mem, m': Mem, p: nat)
    requires Sized(m) && Sized(m') && p < NPAGE && m'.vis == m.vis[p := true]
    ensures Spent(m, m', 1)
  {
    assert FreePages(m') == FreePages(m) - {p};
  }

  lemma FreeingSpendsNothing(m: Mem, m': Mem)
    requires Sized(m) && Sized(m') && forall p: nat | p < NPAGE && m'.vis[p] :: m.vis[p]
    ensures Spent(m, m', 0)
  {
    assert FreePages(m) <= FreePages(m');
    SubsetSize(FreePages(m), FreePages(m'));
  }

  lemma {:induction false} SubsetSize(a: set<nat>, b: set<nat>)
    requires a <= b
    ensures |a| <= |b|
  {
    if a != {} {
      var x :| x in a;
      SubsetSize(a - {x}, b - {x});
    }
  }

  lemma NoneFree(m: Mem)
    requires Sized(m) && forall p: nat | p < NPAGE :: m.vis[p]
    ensures |FreePages(m)| == 0
  {
    assert FreePages(m) == {};
  }

  /** Linking the freshly zeroed page p at an empty table site. */
  lemma LinkKeepsValid(m: Mem, m': Mem, s: Site, t: nat, x: nat, p: nat)
    requires Valid(m) && p < NPAGE && !m.vis[p] && At(m, s).Zero?
    requires !s.Leaf? && WordOf(m, s, t, x)
    requires var a := Allocated(m, p);
             t < NPAGE && m' == a.(frames := a.frames[t := a.frames[t][x := Entry(p, LINK)]], refs := a.refs[p := a.refs[p] + 1])
    ensures Valid(m') && OnlyAt(m, m', s, Entry(p, LINK)) && GrewTables(m, m')
  {
    var a := Allocated(m, p);
    AllocKeepsValid(m, p);
    Unreferenced(m, p);
    if s.Dir? {
      assert RefersTo(m, Root(s.r), t);
      forall j: nat ensures MidAt(a, s.r, s.i, j).Zero? {
        assert At(a, s).Zero?;
      }
      WriteDir(a, m', s.r, s.i, Entry(p, LINK));
    } else {
      assert RefersTo(m, Dir(s.r, s.i), t);
      assert At(a, Dir(s.r, s.i)) == At(m, Dir(s.r, s.i));
      assert At(a, s).Zero?;
      WriteMid(a, m', s.r, s.i, s.j, Entry(p, LINK));
    }
    GainKeepsValid(a, m', s, Entry(p, LINK));
    forall x: Site ensures At(m', x) == if x == s then Entry(p, LINK) else At(m, x) {
      assert At(a, x) == At(m, x);
    }
    forall r: nat, va: Va ensures Translate(m', r, va) == Translate(m, r, va) {
      assert At(m', Leaf(r, va)) == At(m, Leaf(r, va));
    }
    assert At(m, s).Zero?;
    forall q: nat | q < NPAGE && m.vis[q] && !IsTable(m, q)
      ensures !IsTable(m', q) && m'.frames[q] == m.frames[q]
    {
      assert forall y: Site :: RefersTo(m', y, q) <==> RefersTo(m, y, q);
    }
  }

  /** The finite map that the tree of directory r stands for changes at va only. */
  ghost predicate Remaps(m: Mem, m': Mem, r: nat, va: Va, e: Pte) {
    && m'.roots == m.roots && m'.pinned == m.pinned
    && forall q: nat, w: Va :: Translate(m', q, w) == if q == r && w == va then e else Translate(m, q, w)
  }

  /** Allocated pages that are not tables keep their contents and do not become tables. */
  ghost predicate DataKept(m: Mem, m': Mem)
    requires Sized(m) && Sized(m')
  {
    forall p: nat | p < NPAGE && m.vis[p] && !IsTable(m, p) :: !IsTable(m', p) && m'.frames[p] == m.frames[p]
  }

  /** The same for every page, allocated or not: nothing was allocated in between. */
  ghost predicate DataStays(m: Mem, m': Mem)
    requires Sized(m) && Sized(m')
  {
    forall p: nat | p < NPAGE && !IsTable(m, p) :: !IsTable(m', p) && m'.frames[p] == m.frames[p]
  }

  /** One if the entry refers to page p. */
  function Refers(e: Pte, p: nat): nat {
    if e.Entry? && e.ppn == p then 1 else 0
  }

  /** Counts of allocated pages move by the references that the mapping of va gained and lost. */
  ghost predicate Recounts(m: Mem, m': Mem, before: Pte, after: Pte)
    requires Sized(m) && Sized(m')
  {
    forall p: nat | p < NPAGE && m.vis[p] :: m'.refs[p] + Refers(before, p) == m.refs[p] + Refers(after, p)
  }

  /** Effects common to every write of a leaf word. */
  lemma LeafWritten(m: Mem, m': Mem, r: nat, va: Va, t: nat, e: Pte)
    requires Valid(m) && Sized(m') && WordOf(m, Leaf(r, va), t, va.k)
    requires t < NPAGE && Wrote(m, m', t, va.k, e)
    ensures OnlyAt(m, m', Leaf(r, va), e) && Remaps(m, m', r, va, e) && DataStays(m, m')
    ensures forall p: nat :: IsTable(m', p) <==> IsTable(m, p)
    ensures WordOf(m', Leaf(r, va), t, va.k)
  {
    WriteLeaf(m, m', r, va, e);
    forall q: nat, w: Va ensures Translate(m', q, w) == if q == r && w == va then e else Translate(m, q, w) {
      assert At(m', Leaf(q, w)) == if Leaf(q, w) == Leaf(r, va) then e else At(m, Leaf(q, w));
    }
    forall p: nat ensures IsTable(m', p) <==> IsTable(m, p) {
      assert forall y: Site | !y.Leaf? :: RefersTo(m', y, p) <==> RefersTo(m, y, p);
    }
    assert RefersTo(m, Mid(r, va.i, va.j), t);
    assert At(m', Mid(r, va.i, va.j)) == At(m, Mid(r, va.i, va.j));
  }

  /** Counts only went down, and exactly the pages whose count reached zero became free. */
  ghost predicate Freed(m: Mem, m': Mem)
    requires Sized(m) && Sized(m')
  {
    forall p: nat | p < NPAGE :: m'.refs[p] <= m.refs[p] && m'.vis[p] == (m.vis[p] && !(m.refs[p] > 0 && m'.refs[p] == 0))
  }

  /** Of the pages that were allocated, exactly those whose count dropped to zero became free. */
  ghost predicate Released(m: Mem, m': Mem)
    requires Sized(m) && Sized(m')
  {
    forall p: nat | p < NPAGE && m.vis[p] :: m'.vis[p] <==> !(m.refs[p] > 0 && m'.refs[p] == 0)
  }

  lemma ReleasedThenMapped(m: Mem, m1: Mem, m': Mem, p: nat)
    requires Valid(m) && Sized(m1) && Sized(m') && Freed(m, m1) && p < NPAGE && m1.vis[p]
    requires m'.refs == m1.refs[p := m1.refs[p] + 1] && m'.vis == m1.vis
    ensures Released(m, m')
  {
  }

  lemma GainedIsReleased(m: Mem, m': Mem)
    requires Sized(m) && Sized(m') && forall p: nat | p < NPAGE && m.vis[p] :: m'.vis[p] && m'.refs[p] >= m.refs[p]
    ensures Released(m, m')
  {
  }

  /** page_remove of a mapped address. */
  lemma UnmapKeepsValid(m: Mem, m': Mem, r: nat, va: Va, t: nat)
    requires Valid(m) && WordOf(m, Leaf(r, va), t, va.k) && t < NPAGE && Translate(m, r, va).Entry?
    requires var p := Translate(m, r, va).ppn;
             p < NPAGE && m.refs[p] > 0 &&
             var c := m.refs[p] - 1;
             m' == m.(frames := m.frames[t := m.frames[t][va.k := Zero]], refs := m.refs[p := c], vis := m.vis[p := m.vis[p] && c > 0])
    ensures Valid(m') && OnlyAt(m, m', Leaf(r, va), Zero) && Remaps(m, m', r, va, Zero) && DataStays(m, m')
    ensures Recounts(m, m', Translate(m, r, va), Zero) && WordOf(m', Leaf(r, va), t, va.k)
    ensures forall p: nat :: IsTable(m', p) <==> IsTable(m, p)
  {
    hide Conserved, CountedIsAllocated, Trees, TablesUnpinned, InBounds, IsTable, DataStays, Remaps, MidAt, DirAt;
    LeafWritten(m, m', r, va, t, Zero);
    assert At(m, Leaf(r, va)).Entry?;
    LoseKeepsValid(m, m', Leaf(r, va));
  }

  /** A page that may be mapped: allocated, and no table of any address space. */
  ghost predicate IsData(m: Mem, p: nat) {
    p < |m.vis| && m.vis[p] && !IsTable(m, p)
  }

  /** Writing a counted mapping into an empty leaf word keeps the whole invariant exactly when the
      page is data; what it does to translations and counts is the same in either case. */
  lemma MapValidIffData(m: Mem, m': Mem, r: nat, va: Va, t: nat, e: Pte)
    requires Valid(m) && WordOf(m, Leaf(r, va), t, va.k) && t < NPAGE && Translate(m, r, va).Zero?
    requires e.Entry? && e.ppn < NPAGE
    requires m' == m.(frames := m.frames[t := m.frames[t][va.k := e]], refs := m.refs[e.ppn := m.refs[e.ppn] + 1])
    ensures Valid(m') <==> IsData(m, e.ppn)
    ensures OnlyAt(m, m', Leaf(r, va), e) && Remaps(m, m', r, va, e) && DataStays(m, m') && Recounts(m, m', Zero, e)
    ensures IsTable(m, e.ppn) ==> !Trees(m')
  {
    hide Conserved, TablesUnpinned, InBounds, DataStays, Remaps, MidAt, DirAt;
    LeafWritten(m, m', r, va, t, e);
    var site := Leaf(r, va);
    assert At(m, site).Zero?;
    if IsTable(m, e.ppn) {
      var s: Site :| !s.Leaf? && RefersTo(m, s, e.ppn);
      assert RefersTo(m', s, e.ppn) && RefersTo(m', site, e.ppn);
    } else if m.vis[e.ppn] {
      GainKeepsValid(m, m', site, e);
    } else {
      assert m'.refs[e.ppn] > 0 && !m'.vis[e.ppn];
    }
  }

  /** Rewriting a mapping of the same page: only the permission changes, and no count. */
  lemma RemapKeepsValid(m: Mem, m': Mem, r: nat, va: Va, t: nat, e: Pte)
    requires Valid(m) && WordOf(m, Leaf(r, va), t, va.k) && t < NPAGE
    requires Translate(m, r, va).Entry? && e.Entry? && e.ppn == Translate(m, r, va).ppn
    requires m' == m.(frames := m.frames[t := m.frames[t][va.k := e]])
    ensures Valid(m') && Remaps(m, m', r, va, e) && DataStays(m, m')
    ensures Recounts(m, m', Translate(m, r, va), e)
  {
    LeafWritten(m, m', r, va, t, e);
    assert At(m, Leaf(r, va)).Entry?;
    forall q: nat ensures Holders(m', q) == Holders(m, q) {
      assert forall x :: RefersTo(m', x, q) <==> RefersTo(m, x, q);
    }
  }

  /** page_insert at an empty address: tables may be added first, then the word is written. */
  lemma GrowComposes(m: Mem, m1: Mem, m': Mem, r: nat, va: Va, e: Pte)
    requires Sized(m) && Sized(m1) && Sized(m') && GrewTables(m, m1)
    requires Remaps(m1, m', r, va, e) && DataStays(m1, m') && Recounts(m1, m', Zero, e)
    ensures Remaps(m, m', r, va, e) && DataKept(m, m') && Recounts(m, m', Zero, e)
  {
  }

  /** page_insert over another page: remove, then map into the table that is already there. */
  lemma ReplaceComposes(m: Mem, m1: Mem, m': Mem, r: nat, va: Va, e: Pte)
    requires Sized(m) && Sized(m1) && Sized(m') && e.Entry? && e.ppn < NPAGE
    requires Remaps(m, m1, r, va, Zero) && Remaps(m1, m', r, va, e)
    requires DataStays(m, m1) && DataStays(m1, m')
    requires Recounts(m, m1, Translate(m, r, va), Zero) && m'.refs == m1.refs[e.ppn := m1.refs[e.ppn] + 1]
    ensures Remaps(m, m', r, va, e) && DataKept(m, m') && Recounts(m, m', Translate(m, r, va), e)
  {
  }

  /** The self-map word of a directory is no counted reference. */
  lemma ClearSelf(m: Mem, r: nat)
    requires Valid(m) && r in m.roots
    ensures var m' := m.(frames := m.frames[r := m.frames[r][SELF := Zero]]);
            Valid(m') && SameSites(m, m')
  {
    var m' := m.(frames := m.frames[r := m.frames[r][SELF := Zero]]);
    assert RefersTo(m, Root(r), r);
    forall x: Site ensures At(m', x) == At(m, x) {
      match x
      case Root(_) =>
      case Dir(q, i) =>
      case Mid(q, i, j) =>
        assert DirAt(m', q, i) == DirAt(m, q, i);
        TableOf(m, x, r, Root(r));
      case Leaf(q, w) =>
        assert DirAt(m', q, w.i) == DirAt(m, q, w.i);
        TableOf(m, Mid(q, w.i, w.j), r, Root(r));
        assert MidAt(m', q, w.i, w.j) == MidAt(m, q, w.i, w.j);
        TableOf(m, x, r, Root(r));
    }
    SameHolders(m, m');
  }

  /** No leaf table is a directory. */
  lemma LeafTableIsNotRoot(m: Mem, r: nat, va: Va, t: nat, x: nat)
    requires Valid(m) && WordOf(m, Leaf(r, va), t, x)
    ensures t !in m.roots
  {
    assert At(m, Mid(r, va.i, va.j)).Entry?;
    forall q | q in m.roots ensures q != t {
      assert At(m, Root(q)).Entry?;
    }
  }

  /** No page is lost on the way, allocated without a reference, and no directory's own entry for itself
      is overwritten. */
  ghost predicate Tidy(m: Mem, m': Mem) requires Sized(m) && Sized(m') {
    && (forall p: nat | p < NPAGE && Lost(m', p) :: Lost(m, p))
    && (forall r: nat | r in m.roots && r in m'.roots :: m'.frames[r][SELF] == m.frames[r][SELF])
  }

  /** Allocated, with nothing that refers to it. */
  predicate Lost(m: Mem, p: nat) requires Sized(m) && p < NPAGE {
    m.vis[p] && m.refs[p] == 0
  }

  lemma TidyNothing(m: Mem)
    requires Sized(m)
    ensures Tidy(m, m)
  {
  }

  lemma TidyTransitive(a: Mem, b: Mem, c: Mem)
    requires Sized(a) && Sized(b) && Sized(c) && Tidy(a, b) && Tidy(b, c) && a.roots * c.roots <= b.roots
    ensures Tidy(a, c)
  {
  }

  /** Writing a table word leaves the self-maps alone. */
  lemma WordIsNotSelf(m: Mem, s: Site, t: nat, x: nat)
    requires Valid(m) && WordOf(m, s, t, x)
    ensures !(t in m.roots && x == SELF)
  {
    if s.Mid? {
      assert At(m, Dir(s.r, s.i)).Entry?;
      forall q | q in m.roots ensures q != t { assert At(m, Root(q)).Entry?; }
    }
    if s.Leaf? { LeafTableIsNotRoot(m, s.r, s.va, t, x); }
  }

  lemma WriteIsTidy(m: Mem, m': Mem, s: Site, t: nat, x: nat, e: Pte)
    requires Valid(m) && Sized(m') && WordOf(m, s, t, x) && t < NPAGE && m'.roots == m.roots && m'.vis == m.vis
    requires m'.frames == m.frames[t := m.frames[t][x := e]] && forall p: nat | p < NPAGE :: m'.refs[p] >= m.refs[p]
    ensures Tidy(m, m')
  {
    WordIsNotSelf(m, s, t, x);
  }

  lemma LinkIsTidy(m: Mem, m': Mem, s: Site, t: nat, x: nat, p: nat)
    requires Valid(m) && Sized(m') && WordOf(m, s, t, x) && t < NPAGE && p < NPAGE && !m.vis[p]
    requires var a := Allocated(m, p);
      m' == a.(frames := a.frames[t := a.frames[t][x := Entry(p, LINK)]], refs := a.refs[p := a.refs[p] + 1])
    ensures Tidy(m, m')
  {
    WordIsNotSelf(m, s, t, x);
    Unreferenced(m, p);
    assert forall r | r in m.roots :: !RefersTo(m, Root(r), p);
  }

  ghost predicate EmptyBelow(m: Mem, s: Site) {
    match s
    case Root(r) => forall i: nat :: DirAt(m, r, i).Zero?
    case Dir(r, i) => forall j: nat :: MidAt(m, r, i, j).Zero?
    case Mid(r, i, j) => forall k: nat :: Translate(m, r, Va(i, j, k)).Zero?
    case Leaf(_, _) => true
  }

  /** Cutting the link to an emptied lower table, then dropping its count. */
  lemma UnlinkKeepsValid(m: Mem, m': Mem, s: Site, t: nat, x: nat)
    requires Valid(m) && (s.Dir? || s.Mid?) && WordOf(m, s, t, x) && t < NPAGE && At(m, s).Entry? && EmptyBelow(m, s)
    requires var p := At(m, s).ppn;
             p < NPAGE && m.refs[p] > 0 &&
             var c := m.refs[p] - 1;
             m' == m.(frames := m.frames[t := m.frames[t][x := Zero]], refs := m.refs[p := c], vis := m.vis[p := m.vis[p] && c > 0])
    ensures Valid(m') && OnlyAt(m, m', s, Zero) && Freed(m, m')
    ensures IsTable(m, t)
  {
    if s.Dir? {
      assert RefersTo(m, Root(s.r), t);
      WriteDir(m, m', s.r, s.i, Zero);
    } else {
      assert RefersTo(m, Dir(s.r, s.i), t);
      WriteMid(m, m', s.r, s.i, s.j, Zero);
    }
    LoseKeepsValid(m, m', s);
  }

  /** Dropping an emptied directory. */
  lemma DropRootKeepsValid(m: Mem, m': Mem, r: nat)
    requires Valid(m) && r in m.roots && EmptyBelow(m, Root(r)) && m.refs[r] > 0
    requires var c := m.refs[r] - 1;
             m' == m.(roots := m.roots - {r}, refs := m.refs[r := c], vis := m.vis[r := m.vis[r] && c > 0])
    ensures Valid(m') && OnlyAt(m, m', Root(r), Zero) && Freed(m, m')
  {
    forall x: Site ensures At(m', x) == if x == Root(r) then Zero else At(m, x) {
      match x
      case Root(_) =>
      case Dir(q, i) =>
      case Mid(q, i, j) => assert DirAt(m', q, i) == DirAt(m, q, i);
      case Leaf(q, w) => assert DirAt(m', q, w.i) == DirAt(m, q, w.i);
    }
    LoseKeepsValid(m, m', Root(r));
  }

  /** Part of the tree of r has been taken down since m0, and nothing else has changed. */
  ghost predicate Torn(m0: Mem, m: Mem, r: nat)
    requires Sized(m0) && Sized(m)
  {
    && m.pinned == m0.pinned && Freed(m0, m)
    && (forall x: Site :: At(m, x) == At(m0, x) || (x.r == r && At(m, x).Zero?))
    && (forall p: nat | p < NPAGE && !IsTable(m0, p) :: m.frames[p] == m0.frames[p])
  }

  lemma TornStep(m: Mem, m': Mem, s: Site)
    requires Sized(m) && Sized(m') && m'.pinned == m.pinned && OnlyAt(m, m', s, Zero) && Freed(m, m')
    requires forall p: nat | p < NPAGE && !IsTable(m, p) :: m'.frames[p] == m.frames[p]
    ensures Torn(m, m', s.r)
  {
  }

  lemma TornTransitive(a: Mem, b: Mem, c: Mem, r: nat)
    requires Sized(a) && Sized(b) && Sized(c) && Torn(a, b, r) && Torn(b, c, r)
    ensures Torn(a, c, r)
  {
    forall p: nat | p < NPAGE && !IsTable(a, p) ensures c.frames[p] == a.frames[p] {
      forall y: Site | !y.Leaf? ensures !RefersTo(b, y, p) {
        NotTable(a, p, y);
        assert At(b, y) == At(a, y) || At(b, y).Zero?;
      }
      assert !IsTable(b, p);
    }
  }

  lemma TornHolders(m0: Mem, m: Mem, r: nat, p: nat)
    requires Valid(m0) && Valid(m) && Torn(m0, m, r) && m.roots == m0.roots - {r}
    ensures Holders(m, p) == set s | s in Holders(m0, p) && s.r != r
  {
    forall s: Site ensures RefersTo(m, s, p) <==> RefersTo(m0, s, p) && s.r != r {
      assert At(m, s) == At(m0, s) || (s.r == r && At(m, s).Zero?);
    }
  }

  lemma SplitBySpace(h: set<Site>, r: nat)
    ensures |h| == |set s | s in h && s.r == r| + |set s | s in h && s.r != r|
    ensures |set s | s in h && s.r != r| == 0 <==> forall s | s in h :: s.r == r
  {
    var mine, others := set s | s in h && s.r == r, set s | s in h && s.r != r;
    assert h == mine + others && mine !! others;
    if s :| s in h && s.r != r {
      assert s in others;
    } else {
      assert others == {};
    }
  }

  /** Teardown, counted: each page loses exactly the references that the tree of r held, and a
      page becomes free exactly when it had no others. */
  lemma TeardownIsExact(m0: Mem, m: Mem, r: nat, p: nat)
    requires Valid(m0) && Valid(m) && p < NPAGE && Torn(m0, m, r) && m.roots == m0.roots - {r}
    ensures m.refs[p] == m0.refs[p] - |set s | s in Holders(m0, p) && s.r == r|
    ensures m0.vis[p] && !m.vis[p] <==> m0.refs[p] > 0 && m0.pinned[p] == 0 && forall s | s in Holders(m0, p) :: s.r == r
  {
    hide Trees, TablesUnpinned, InBounds, RefersTo, At;
    TornHolders(m0, m, r, p);
    SplitBySpace(Holders(m0, p), r);
    assert m.refs[p] == m.pinned[p] + |Holders(m, p)| && m0.refs[p] == m0.pinned[p] + |Holders(m0, p)|;
  }

  /** A page that some leaf maps is allocated and is no table. */
  lemma MappedIsData(m: Mem, r: nat, va: Va)
    requires Valid(m) && Translate(m, r, va).Entry?
    ensures var p := Translate(m, r, va).ppn; p < NPAGE && m.vis[p] && m.refs[p] > 0 && !IsTable(m, p)
  {
    HeldIsCounted(m, Leaf(r, va));
    var p := Translate(m, r, va).ppn;
    forall s: Site | !s.Leaf? ensures !RefersTo(m, s, p) {
      assert At(m, Leaf(r, va)).Entry?;
      assert s != Leaf(r, va);
    }
  }

  /** A page with a boot reference stays allocated and never becomes a table. */
  lemma PinnedIsData(m: Mem, p: nat)
    requires Valid(m) && p < NPAGE && m.pinned[p] > 0
    ensures m.vis[p] && m.refs[p] > 0 && !IsTable(m, p)
  {
    forall s: Site | !s.Leaf? ensures !RefersTo(m, s, p) {
      assert At(m, s).Entry? && At(m, s).ppn < NPAGE ==> m.pinned[At(m, s).ppn] == 0;
    }
  }

  lemma NewRootSites(a: Mem, m': Mem, p: nat, self: Perm)
    requires p < |a.frames| && p !in a.roots && !IsTable(a, p)
    requires m'.frames == a.frames[p := Empty()[SELF := Entry(p, self)]] && m'.roots == a.roots + {p}
    ensures OnlyAt(a, m', Root(p), Entry(p, LINK))
  {
    forall x: Site ensures At(m', x) == if x == Root(p) then Entry(p, LINK) else At(a, x) {
      match x
      case Root(_) =>
      case Dir(q, i) =>
      case Mid(q, i, j) =>
        NotTable(a, p, Dir(q, i));
        assert DirAt(m', q, i) == DirAt(a, q, i);
      case Leaf(q, w) =>
        NotTable(a, p, Dir(q, w.i));
        assert DirAt(m', q, w.i) == DirAt(a, q, w.i);
        NotTable(a, p, Mid(q, w.i, w.j));
        assert MidAt(m', q, w.i, w.j) == MidAt(a, q, w.i, w.j);
    }
  }

  /** The page directory of a new environment: a fresh page whose only entry maps itself. */
  lemma NewRootKeepsValid(m: Mem, m': Mem, p: nat, self: Perm)
    requires Valid(m) && p < NPAGE && !m.vis[p]
    requires m' == Mem(m.vis[p := true], m.refs[p := m.refs[p] + 1],
                       m.frames[p := Empty()[SELF := Entry(p, self)]], m.pinned, m.roots + {p})
    ensures Valid(m') && OnlyAt(m, m', Root(p), Entry(p, LINK)) && p !in m.roots
    ensures forall q: nat | q < NPAGE && m.vis[q] && !IsTable(m, q) :: !IsTable(m', q)
  {
    Unreferenced(m, p);
    assert !RefersTo(m, Root(p), p);
    AllocKeepsValid(m, p);
    var a := Allocated(m, p);
    NewRootSites(a, m', p, self);
    GainKeepsValid(a, m', Root(p), Entry(p, LINK));
    hide Valid;
    forall x: Site ensures At(m', x) == if x == Root(p) then Entry(p, LINK) else At(m, x) {
      assert At(a, x) == At(m, x);
    }
    forall q: nat | q < NPAGE && m.vis[q] && !IsTable(m, q) ensures !IsTable(m', q) {
      assert forall y: Site :: RefersTo(m', y, q) <==> RefersTo(m, y, q);
    }
  }

  /** The finite map from page addresses to (page, permission) that the tree of r stands for. */
  ghost function Space(m: Mem, r: nat): (f: map<Va, Pte>)
    requires Sized(m)
    ensures forall va :: va in f <==> Translate(m, r, va).Entry?
    ensures forall va | va in f :: f[va] == Translate(m, r, va)
  {
    forall va: Va | Translate(m, r, va).Entry? ensures Leaf(r, va) in Places(m.roots) {
      OccupiedIsPlace(m, Leaf(r, va));
    }
    map s | s in Places(m.roots) && s.Leaf? && s.r == r && Translate(m, r, s.va).Entry? :: s.va := Translate(m, r, s.va)
  }

  /** page_insert is update, page_remove is deletion, and no other address space moves. */
  lemma RemapsIsMapUpdate(m: Mem, m': Mem, r: nat, va: Va, e: Pte)
    requires Sized(m) && Sized(m') && Remaps(m, m', r, va, e)
    ensures Space(m', r) == if e.Entry? then Space(m, r)[va := e] else Space(m, r) - {va}
    ensures forall q: nat | q != r :: Space(m', q) == Space(m, q)
  {
    hide Translate;
    assert Space(m', r) == if e.Entry? then Space(m, r)[va := e] else Space(m, r) - {va};
  }

  /** pgdir_walk with create: the tree may grow, the map does not. */
  lemma GrowingIsInvisible(m: Mem, m': Mem, r: nat)
    requires Sized(m) && Sized(m') && GrewTables(m, m')
    ensures Space(m', r) == Space(m, r)
  {
  }

  /** The word that a site other than a directory root occupies, as an address in physical memory. */
  function WordAddress(m: Mem, s: Site): nat {
    match s
    case Root(r) => 0
    case Dir(r, i) => r * PTSZ + i
    case Mid(r, i, j) => (if DirAt(m, r, i).Entry? then DirAt(m, r, i).ppn * PTSZ + j else 0)
    case Leaf(r, va) => (if MidAt(m, r, va.i, va.j).Entry? then MidAt(m, r, va.i, va.j).ppn * PTSZ + va.k else 0)
  }

  lemma WordAddressInjective(m: Mem, s: Site, s': Site)
    requires Valid(m) && At(m, s).Entry? && At(m, s').Entry? && !s.Root? && !s'.Root?
    requires WordAddress(m, s) == WordAddress(m, s')
    ensures s == s'
  {
    var link, t, x := Word(m, s);
    var link', t', x' := Word(m, s');
    assert t * PTSZ + x == t' * PTSZ + x';
    assert t == t' && x == x';
    assert link == link';
  }

  /** The link to the table that a non-root site lies in, that table, and the index in it. */
  lemma Word(m: Mem, s: Site) returns (link: Site, t: nat, x: nat)
    requires Valid(m) && At(m, s).Entry? && !s.Root?
    ensures !link.Leaf? && At(m, link).Entry? && At(m, link).ppn == t < NPAGE && x < PTSZ
    ensures WordAddress(m, s) == t * PTSZ + x
    ensures s == (if link.Root? then Dir(link.r, x) else if link.Dir? then Mid(link.r, link.i, x)
                  else Leaf(link.r, Va(link.i, link.j, x)))
  {
    match s
    case Dir(r, i) =>
      link, t, x := Root(r), r, i;
    case Mid(r, i, j) =>
      link, t, x := Dir(r, i), DirAt(m, r, i).ppn, j;
      assert At(m, link).Entry?;
    case Leaf(r, va) =>
      link, t, x := Mid(r, va.i, va.j), MidAt(m, r, va.i, va.j).ppn, va.k;
      assert At(m, link).Entry?;
  }

  lemma {:induction false} BoundedSize(s: set<nat>, n: nat)
    requires forall x | x in s :: x < n
    ensures |s| <= n
  {
    if n == 0 {
      assert s == {};
    } else {
      BoundedSize(s - {n - 1}, n - 1);
    }
  }

  lemma {:induction false} SameSize(m: Mem, h: set<Site>) returns (a: set<nat>)
    requires Valid(m) && forall s | s in h :: At(m, s).Entry? && !s.Root?
    ensures |a| == |h| && forall x | x in a :: exists s | s in h :: x == WordAddress(m, s)
    decreases |h|
  {
    if h == {} {
      a := {};
    } else {
      var s :| s in h;
      a := SameSize(m, h - {s});
      forall x | x in a ensures x != WordAddress(m, s) {
        var s' :| s' in h - {s} && x == WordAddress(m, s');
        if x == WordAddress(m, s) { WordAddressInjective(m, s, s'); }
      }
      a := a + {WordAddress(m, s)};
    }
  }

  /** The 32-bit count cannot wrap: every reference but a root needs a table word of its own. */
  lemma RefsFitIn32Bits(m: Mem, p: nat)
    requires Valid(m) && p < NPAGE
    ensures m.refs[p] <= m.pinned[p] + NPAGE * PTSZ + 1
    ensures m.pinned[p] <= 2 ==> m.refs[p] < 0x1_0000_0000
  {
    var h := Holders(m, p);
    var below := h - {Root(p)};
    forall s | s in below ensures At(m, s).Entry? && !s.Root? {
      assert RefersTo(m, s, p);
    }
    var a := SameSize(m, below);
    forall x | x in a ensures x < NPAGE * PTSZ {
      var s :| s in below && x == WordAddress(m, s);
      var link, t, i := Word(m, s);
    }
    BoundedSize(a, NPAGE * PTSZ);
    assert |h| <= |below| + 1;
  }

  lemma BootIsValid(m: Mem)
    requires Sized(m) && m.roots == {} && m.pinned == m.refs && CountedIsAllocated(m)
    ensures Valid(m)
  {
    forall p: nat ensures Holders(m, p) == {} {
      assert forall s: Site :: At(m, s).Zero?;
    }
  }
}
