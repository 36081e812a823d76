/** The block cache of the file server: fs/fs.c over the sector loops of fs/sd_card.c. */
module BlockCache {
  import opened Wrappers

  const BLOCK := 4096
  const SECTOR := 512
  const SECTORS_PER_BLOCK := 8
  const SEC_OFFSET: nat := 2048 + 3000000
  /** DISKMAX / BY2BLK */
  const MAXBLOCKS: nat := 0x4_0000
  const BITS_PER_BLOCK := 0x8000

  type byte = bv8
  function Zeros(n: nat): (z: seq<byte>)
    ensures |z| == n && forall i | 0 <= i < n :: z[i] == 0
  {
    seq(n, _ => 0)
  }

  type Block = b: seq<byte> | |b| == 4096 witness Zeros(4096)
  type Sector = s: seq<byte> | |s| == 512 witness Zeros(512)

  /** Cached pages and the card; whether the pointers super and bitmap are set. */
  datatype Cache = Cache(mapped: seq<bool>, page: seq<Block>, card: seq<Sector>, super: bool, bitmap: bool)

  /** First card sector of block n. */
  function Base(n: nat): nat { SEC_OFFSET + SECTORS_PER_BLOCK * n }

  predicate Sized(c: Cache) {
    |c.mapped| == |c.page| == MAXBLOCKS && |c.card| >= Base(MAXBLOCKS)
  }

  /** super->s_nblocks, the second u32 of cached block 1. */
  function SuperBlocks(b: Block): nat {
    (b[4] as int) + 0x100 * (b[5] as int) + 0x1_0000 * (b[6] as int) + 0x100_0000 * (b[7] as int)
  }

  /** The number of bitmap blocks of a disk of nb blocks; they follow block 1. */
  function BitmapBlocks(nb: nat): nat { (nb + BITS_PER_BLOCK - 1) / BITS_PER_BLOCK }

  /** The super block and the bitmap. */
  predicate IsMeta(nb: nat, n: nat) { 1 <= n < 2 + BitmapBlocks(nb) }

  /** What the pointers point at is mapped, and the disk is not too large. */
  ghost predicate Valid(c: Cache) {
    && Sized(c)
    && (c.super ==> c.mapped[1] && SuperBlocks(c.page[1]) <= MAXBLOCKS)
    && (c.bitmap ==> c.super && forall n: nat | n < MAXBLOCKS && IsMeta(SuperBlocks(c.page[1]), n) :: c.mapped[n])
  }

  /** diskaddr accepts the number. */
  predicate InRange(c: Cache, n: nat) requires Sized(c) {
    n < MAXBLOCKS && (c.super ==> n < SuperBlocks(c.page[1]))
  }

  function Mask(k: nat): byte {
    if k == 0 then 1 else if k == 1 then 2 else if k == 2 then 4 else if k == 3 then 8
    else if k == 4 then 16 else if k == 5 then 32 else if k == 6 then 64 else 128
  }

  predicate ByteBit(x: byte, k: nat) { x & Mask(k) != 0 }

  function WithByteBit(x: byte, k: nat, on: bool): byte { if on then x | Mask(k) else x & !Mask(k) }

  /** Bit j of a little-endian bitmap. */
  predicate Bit(b: Block, j: nat) requires j < BITS_PER_BLOCK {
    ByteBit(b[j / 8], j % 8)
  }

  function WithBit(b: Block, j: nat, on: bool): Block requires j < BITS_PER_BLOCK {
    b[j / 8 := WithByteBit(b[j / 8], j % 8, on)]
  }

  lemma MaskBits(x: byte, k: nat, i: nat)
    requires k < 8 && i < 8
    ensures (x | Mask(k)) & Mask(i) != 0 <==> i == k || x & Mask(i) != 0
    ensures (x & !Mask(k)) & Mask(i) != 0 <==> i != k && x & Mask(i) != 0
  {
    if k == 0 { MaskBit(x, 1, i); } else if k == 1 { MaskBit(x, 2, i); } else if k == 2 { MaskBit(x, 4, i); }
    else if k == 3 { MaskBit(x, 8, i); } else if k == 4 { MaskBit(x, 16, i); } else if k == 5 { MaskBit(x, 32, i); }
    else if k == 6 { MaskBit(x, 64, i); } else { MaskBit(x, 128, i); }
  }

  lemma MaskBit(x: byte, m: byte, i: nat)
    requires i < 8 && m in {1, 2, 4, 8, 16, 32, 64, 128}
    ensures (x | m) & Mask(i) != 0 <==> m == Mask(i) || x & Mask(i) != 0
    ensures (x & !m) & Mask(i) != 0 <==> m != Mask(i) && x & Mask(i) != 0
  {
  }

  lemma ByteBitAt(x: byte, k: nat, on: bool, i: nat)
    requires k < 8 && i < 8
    ensures ByteBit(WithByteBit(x, k, on), i) == if i == k then on else ByteBit(x, i)
  {
    hide Mask;
    MaskBits(x, k, i);
  }

  /** Changing one bit of the bitmap changes that bit only. */
  lemma WithBitAt(b: Block, j: nat, on: bool, i: nat)
    requires j < BITS_PER_BLOCK && i < BITS_PER_BLOCK
    ensures Bit(WithBit(b, j, on), i) == if i == j then on else Bit(b, i)
  {
    hide Mask, ByteBit, WithByteBit;
    var q, r := i / 8, i % 8;
    if q == j / 8 {
      ByteBitAt(b[q], j % 8, on, r);
      assert i == j <==> r == j % 8;
    }
  }

  /** Whether block n is free according to the bitmap blocks in page. */
  predicate Marked(page: seq<Block>, n: nat) requires |page| == MAXBLOCKS && n < MAXBLOCKS {
    n < SuperBlocks(page[1]) && Bit(page[2 + n / BITS_PER_BLOCK], n % BITS_PER_BLOCK)
  }

  /** block_is_free */
  predicate IsFree(c: Cache, n: nat) requires Sized(c) && n < MAXBLOCKS {
    c.super && Marked(c.page, n)
  }

  // ---- Blocks on the card ----

  /** k sectors from s on, one after the other. */
  function Gather(card: seq<Sector>, s: nat, k: nat): (b: seq<byte>)
    requires s + k <= |card|
    ensures |b| == SECTOR * k
  {
    if k == 0 then [] else Gather(card, s, k - 1) + card[s + k - 1]
  }

  /** The card with the first k sectors of b stored from s on. */
  function Scatter(card: seq<Sector>, s: nat, b: seq<byte>, k: nat): (r: seq<Sector>)
    requires s + k <= |card| && SECTOR * k <= |b|
    ensures |r| == |card|
  {
    if k == 0 then card else Scatter(card, s, b, k - 1)[s + k - 1 := b[SECTOR * (k - 1)..SECTOR * k]]
  }

  lemma {:induction false} ScatterAt(card: seq<Sector>, s: nat, b: seq<byte>, k: nat, i: nat)
    requires s + k <= |card| && SECTOR * k <= |b| && i < |card|
    ensures Scatter(card, s, b, k)[i] == if s <= i < s + k then b[SECTOR * (i - s)..SECTOR * (i - s + 1)] else card[i]
  {
    if k > 0 { ScatterAt(card, s, b, k - 1, i); }
  }

  lemma {:induction false} GatherSame(card: seq<Sector>, card': seq<Sector>, s: nat, k: nat)
    requires s + k <= |card| == |card'| && forall i | s <= i < s + k :: card[i] == card'[i]
    ensures Gather(card, s, k) == Gather(card', s, k)
  {
    if k > 0 { GatherSame(card, card', s, k - 1); }
  }

  lemma {:induction false} GatherScattered(card: seq<Sector>, s: nat, b: seq<byte>, k: nat)
    requires s + k <= |card| && SECTOR * k <= |b| && (forall i | 0 <= i < k :: card[s + i] == b[SECTOR * i..SECTOR * (i + 1)])
    ensures Gather(card, s, k) == b[..SECTOR * k]
  {
    if k > 0 {
      GatherScattered(card, s, b, k - 1);
      assert card[s + (k - 1)] == b[SECTOR * (k - 1)..SECTOR * k];
    }
  }

  function OnCard(c: Cache, n: nat): (b: Block)
    requires Sized(c) && n < MAXBLOCKS
  {
    Gather(c.card, Base(n), SECTORS_PER_BLOCK)
  }

  /** The content of a block: its cached page if there is one, otherwise its sectors. */
  function Content(c: Cache, n: nat): (b: Block)
    requires Sized(c) && n < MAXBLOCKS
  {
    if c.mapped[n] then c.page[n] else OnCard(c, n)
  }

  // ---- The operations as functions ----

  /** What read_block does for a block that is not mapped. */
  function Load(c: Cache, n: nat): (c': Cache)
    requires Sized(c) && n < MAXBLOCKS
    ensures Sized(c')
  {
    c.(mapped := c.mapped[n := true], page := c.page[n := OnCard(c, n)])
  }

  function Write(c: Cache, n: nat): (c': Cache)
    requires Sized(c) && n < MAXBLOCKS
    ensures Sized(c') && c' == c.(card := c'.card)
  {
    c.(card := Scatter(c.card, Base(n), c.page[n], SECTORS_PER_BLOCK))
  }

  function Drop(c: Cache, n: nat): (c': Cache)
    requires Sized(c) && n < MAXBLOCKS
    ensures Sized(c')
  {
    c.(mapped := c.mapped[n := false])
  }

  lemma WriteCard(c: Cache, n: nat, m: nat)
    requires Sized(c) && n < MAXBLOCKS && m < MAXBLOCKS
    ensures OnCard(Write(c, n), m) == if m == n then c.page[n] else OnCard(c, m)
  {
    var c' := Write(c, n);
    forall i: nat | i < |c.card|
      ensures c'.card[i] == if Base(n) <= i < Base(n + 1) then c.page[n][SECTOR * (i - Base(n))..SECTOR * (i - Base(n) + 1)] else c.card[i]
    {
      ScatterAt(c.card, Base(n), c.page[n], SECTORS_PER_BLOCK, i);
    }
    if m == n {
      GatherScattered(c'.card, Base(n), c.page[n], SECTORS_PER_BLOCK);
    } else {
      GatherSame(c.card, c'.card, Base(m), SECTORS_PER_BLOCK);
    }
  }

  // ---- What they keep ----

  lemma LoadKeepsContent(c: Cache, n: nat, m: nat)
    requires Sized(c) && n < MAXBLOCKS && m < MAXBLOCKS && !c.mapped[n]
    ensures Content(Load(c, n), m) == Content(c, m)
  {
  }

  lemma WriteKeepsContent(c: Cache, n: nat, m: nat)
    requires Sized(c) && n < MAXBLOCKS && m < MAXBLOCKS && c.mapped[n]
    ensures Content(Write(c, n), m) == Content(c, m)
  {
    hide OnCard, Write;
    WriteCard(c, n, m);
  }

  function ReadBlock(c: Cache, n: nat): (c': Cache)
    requires Sized(c) && n < MAXBLOCKS
    ensures Sized(c')
  {
    if c.mapped[n] then c else Load(c, n)
  }

  function UnmapBlock(c: Cache, n: nat): (c': Cache)
    requires Sized(c) && n < MAXBLOCKS
    ensures Sized(c')
  {
    if !c.mapped[n] then c else if IsFree(c, n) then Drop(c, n) else Drop(Write(c, n), n)
  }

  /** read_block: the block is in the cache afterwards, with its content, and nothing else has changed. */
  lemma ReadBlockMaps(c: Cache, n: nat)
    requires Sized(c) && n < MAXBLOCKS
    ensures ReadBlock(c, n) == c.(mapped := c.mapped[n := true], page := c.page[n := Content(c, n)])
  {
  }

  /** unmap_block: the block is not in the cache afterwards, and every other one is as it was; if it was
      in the cache and in use, the card has its page, and the card is unchanged otherwise. */
  lemma UnmapBlockUnmaps(c: Cache, n: nat, m: nat)
    requires Sized(c) && n < MAXBLOCKS && m < MAXBLOCKS
    ensures var c' := UnmapBlock(c, n);
      && c' == c.(mapped := c.mapped[n := false], card := c'.card)
      && OnCard(c', m) == (if m == n && c.mapped[n] && !IsFree(c, n) then c.page[n] else OnCard(c, m))
      && (!c.mapped[n] || IsFree(c, n) ==> c'.card == c.card)
  {
    hide OnCard, Write, IsFree;
    if c.mapped[n] {
      WriteCard(c, n, m);
      CardSame(c, Drop(c, n), m);
      CardSame(Write(c, n), Drop(Write(c, n), n), m);
    }
  }

  /** Unmapping keeps every block, except a free one whose page is newer than the card. */
  lemma UnmapKeepsContent(c: Cache, n: nat, m: nat)
    requires Sized(c) && n < MAXBLOCKS && m < MAXBLOCKS
    ensures Content(UnmapBlock(c, n), m) == Content(c, m) <==>
              m != n || !IsFree(c, n) || !c.mapped[n] || c.page[n] == OnCard(c, n)
  {
    hide OnCard, Write, IsFree;
    if c.mapped[n] && !IsFree(c, n) { WriteCard(c, n, m); }
    CardSame(c, Drop(c, n), m);
    CardSame(Write(c, n), Drop(Write(c, n), n), m);
  }

  lemma CardSame(c: Cache, c': Cache, m: nat)
    requires Sized(c) && Sized(c') && c.card == c'.card && m < MAXBLOCKS
    ensures OnCard(c', m) == OnCard(c, m)
  {
  }

  /** fs_sync for the first k blocks. */
  function Sync(c: Cache, k: nat): (c': Cache)
    requires Sized(c) && k <= MAXBLOCKS
    ensures Sized(c') && c' == c.(card := c'.card)
  {
    if k == 0 then c
    else
      var c1 := Sync(c, k - 1);
      if c1.mapped[k - 1] then Write(c1, k - 1) else c1
  }

  /** fs_sync makes the card equal to the content of every block, and changes no content. */
  lemma {:induction false} SyncWritesAll(c: Cache, k: nat, m: nat)
    requires Sized(c) && k <= MAXBLOCKS && m < MAXBLOCKS
    ensures Content(Sync(c, k), m) == Content(c, m)
    ensures OnCard(Sync(c, k), m) == if m < k then Content(c, m) else OnCard(c, m)
  {
    hide OnCard, Write;
    if k > 0 {
      SyncWritesAll(c, k - 1, m);
      var c1 := Sync(c, k - 1);
      if c1.mapped[k - 1] { WriteCard(c1, k - 1, m); WriteKeepsContent(c1, k - 1, m); }
    }
  }

  // ---- check_write_block ----

  /** The block after strcpy(block, "OOPS!\n"). */
  function Smash(b: Block): (r: Block) {
    [79, 79, 80, 83, 33, 10, 0] + b[7..]
  }

  function CheckWriteBlock(c: Cache): (c': Cache)
    requires Sized(c)
    ensures Sized(c')
  {
    var c1 := ReadBlock(c.(super := false), 0);
    var c2 := c1.(page := c1.page[0 := c1.page[1]]);
    var c3 := Write(c2.(page := c2.page[1 := Smash(c2.page[1])]), 1);
    var c4 := Load(Drop(c3, 1), 1);
    var c5 := Write(c4.(page := c4.page[1 := c4.page[0]]), 1);
    c5.(super := true)
  }

  /** The smashed block reads back as written, and block 1 ends as it began, in the cache and on the
      card.  Block 0 keeps the copy of block 1 in the cache, so that its own content survives exactly
      when the two were equal; all other blocks keep theirs. */
  lemma CheckRestoresSuper(c: Cache, m: nat)
    requires Sized(c) && c.mapped[1] && m < MAXBLOCKS
    ensures var c' := CheckWriteBlock(c);
      && c'.mapped == c.mapped[0 := true]
      && c'.page[1] == c.page[1] && OnCard(c', 1) == c.page[1]
      && Content(c', 0) == c.page[1]
      && (m != 0 ==> Content(c', m) == Content(c, m))
  {
    hide OnCard, Write;
    var c1 := ReadBlock(c.(super := false), 0);
    var c2 := c1.(page := c1.page[0 := c1.page[1]]);
    var c3 := c2.(page := c2.page[1 := Smash(c2.page[1])]);
    var c4 := Load(Drop(Write(c3, 1), 1), 1);
    var c5 := c4.(page := c4.page[1 := c4.page[0]]);
    WriteCard(c3, 1, m);
    WriteCard(c5, 1, m);
    WriteCard(c5, 1, 1);
    CardSame(Write(c3, 1), c5, m);
    CardSame(c, c3, m);
    CardSame(Write(c5, 1), CheckWriteBlock(c), m);
    CardSame(Write(c5, 1), CheckWriteBlock(c), 1);
  }

  /** The comparison in check_write_block succeeds. */
  lemma SmashReadsBack(c: Cache)
    requires Sized(c) && c.mapped[1]
    ensures Load(Drop(Write(c.(page := c.page[1 := Smash(c.page[1])]), 1), 1), 1).page[1] == Smash(c.page[1])
  {
    var c1 := c.(page := c.page[1 := Smash(c.page[1])]);
    WriteCard(c1, 1, 1);
    CardSame(Write(c1, 1), Drop(Write(c1, 1), 1), 1);
  }

  /** Block 0 loses its content in check_write_block unless it equalled the super block, and the next
      fs_sync puts the loss on the card. */
  lemma CheckLosesBlockZero(c: Cache, k: nat)
    requires Sized(c) && c.mapped[1] && 0 < k <= MAXBLOCKS
    ensures Content(CheckWriteBlock(c), 0) == Content(c, 0) <==> Content(c, 0) == Content(c, 1)
    ensures OnCard(Sync(CheckWriteBlock(c), k), 0) == Content(c, 1)
  {
    CheckRestoresSuper(c, 0);
    SyncWritesAll(CheckWriteBlock(c), k, 0);
  }

  // ---- Allocation ----

  /** alloc_block_num: the first free block from k on, below nb. */
  function FirstFree(page: seq<Block>, k: nat, nb: nat): (r: nat)
    requires |page| == MAXBLOCKS && k <= nb <= MAXBLOCKS && nb == SuperBlocks(page[1])
    ensures k <= r <= nb && (r < nb ==> Marked(page, r)) && (forall i: nat | k <= i < r :: !Marked(page, i))
    decreases nb - k
  {
    if k == nb || Marked(page, k) then k else FirstFree(page, k + 1, nb)
  }

  /** The bitmap with the bit of block n set or cleared. */
  function SetFree(page: seq<Block>, n: nat, free: bool): (r: seq<Block>)
    requires |page| == MAXBLOCKS && n < MAXBLOCKS
    ensures |r| == MAXBLOCKS && r[1] == page[1]
  {
    var b := 2 + n / BITS_PER_BLOCK;
    page[b := WithBit(page[b], n % BITS_PER_BLOCK, free)]
  }

  lemma SetFreeMarks(page: seq<Block>, n: nat, free: bool, m: nat)
    requires |page| == MAXBLOCKS && n < SuperBlocks(page[1]) && n < MAXBLOCKS && m < MAXBLOCKS
    ensures Marked(SetFree(page, n, free), m) <==> if m == n then free else Marked(page, m)
  {
    hide WithBit, Bit;
    if m / BITS_PER_BLOCK == n / BITS_PER_BLOCK {
      WithBitAt(page[2 + n / BITS_PER_BLOCK], n % BITS_PER_BLOCK, free, m % BITS_PER_BLOCK);
    }
  }

  /** map_block: a fresh page is zero. */
  function MapBlock(c: Cache, n: nat): (c': Cache)
    requires Sized(c) && n < MAXBLOCKS
    ensures Sized(c')
  {
    if c.mapped[n] then c else c.(mapped := c.mapped[n := true], page := c.page[n := Zeros(BLOCK)])
  }

  /** map_block: the block is in the cache afterwards, with zeros if it was not before, and nothing else has
      changed. */
  lemma MapBlockMaps(c: Cache, n: nat)
    requires Sized(c) && n < MAXBLOCKS
    ensures var c' := MapBlock(c, n);
      && c' == c.(mapped := c.mapped[n := true], page := c.page[n := c'.page[n]])
      && (if c.mapped[n] then c'.page[n] == c.page[n] else forall i | 0 <= i < BLOCK :: c'.page[n][i] == 0)
  {
    assert c.page[n := c.page[n]] == c.page;
  }

  // ---- The logical disk ----

  /** A disk with its super block and bitmap read, and the blocks of the file system itself in use. */
  ghost predicate Mounted(c: Cache)
    ensures Mounted(c) ==> Sized(c) && c.super
  {
    && Valid(c) && c.super && c.bitmap
    && (forall n: nat | n < MAXBLOCKS && IsMeta(SuperBlocks(c.page[1]), n) :: !IsFree(c, n) && n < SuperBlocks(c.page[1]))
  }

  datatype Op =
    | Read(n: nat)                          // read_block
    | Store(n: nat, off: nat, v: byte)      // a store through the pointer it returned
    | Flush(n: nat)                         // write_block of a dirty block
    | Unmap(n: nat)                         // unmap_block
    | SyncAll                               // fs_sync
    | Alloc                                 // alloc_block
    | Release(n: nat)                       // free_block

  /** The blocks that operations on files name. */
  ghost predicate IsData(c: Cache, n: nat) requires Sized(c) {
    0 < n < MAXBLOCKS && n < SuperBlocks(c.page[1]) && !IsMeta(SuperBlocks(c.page[1]), n)
  }

  /** None is a panic or a page fault. */
  ghost function Do(c: Cache, op: Op): (r: Option<Cache>)
    requires Sized(c)
    ensures r.Some? ==> Sized(r.value)
  {
    match op
    case Read(n) => if InRange(c, n) && !IsFree(c, n) then Some(ReadBlock(c, n)) else None
    case Store(n, off, v) =>
      if IsData(c, n) && c.mapped[n] && off < BLOCK then Some(c.(page := c.page[n := c.page[n][off := v]])) else None
    case Flush(n) => if InRange(c, n) then Some(if c.mapped[n] then Write(c, n) else c) else None
    case Unmap(n) => if IsData(c, n) then Some(UnmapBlock(c, n)) else None
    case SyncAll => if SuperBlocks(c.page[1]) <= MAXBLOCKS then Some(Sync(c, SuperBlocks(c.page[1]))) else None
    case Alloc =>
      var nb := SuperBlocks(c.page[1]);
      if 3 <= nb <= MAXBLOCKS then
        var r := FirstFree(c.page, 3, nb);
        if r == nb then Some(c) else Some(MapBlock(c.(page := SetFree(c.page, r, false)), r))
      else None
    case Release(n) => if IsData(c, n) then Some(c.(page := SetFree(c.page, n, true))) else None
  }

  /** The same operations on an array of blocks with no cache.  blank is what a newly allocated block
      happens to contain. */
  ghost function Logical(disk: seq<Block>, op: Op, blank: Block): (r: seq<Block>)
    requires |disk| == MAXBLOCKS
    ensures |r| == MAXBLOCKS
  {
    match op
    case Store(n, off, v) => if n < MAXBLOCKS && off < BLOCK then disk[n := disk[n][off := v]] else disk
    case Alloc =>
      var nb := SuperBlocks(disk[1]);
      if 3 <= nb <= MAXBLOCKS then
        var r := FirstFree(disk, 3, nb);
        if r == nb then disk else SetFree(disk, r, false)[r := blank]
      else disk
    case Release(n) => if n < MAXBLOCKS then SetFree(disk, n, true) else disk
    case _ => disk
  }

  /** Every block in use has the content that the logical disk says. */
  ghost predicate Agrees(c: Cache, disk: seq<Block>) requires Sized(c) {
    |disk| == MAXBLOCKS && forall n: nat | n < MAXBLOCKS && !IsFree(c, n) :: Content(c, n) == disk[n]
  }

  /** The file system's own blocks are in the cache and in use, so both disks have the same bitmap. */
  lemma MetaAgrees(c: Cache, disk: seq<Block>, n: nat)
    requires Mounted(c) && Agrees(c, disk) && n < MAXBLOCKS
    ensures disk[1] == c.page[1]
    ensures n < SuperBlocks(c.page[1]) ==> disk[2 + n / BITS_PER_BLOCK] == c.page[2 + n / BITS_PER_BLOCK]
    ensures Marked(disk, n) <==> IsFree(c, n)
  {
    hide OnCard, Bit, SuperBlocks;
    assert IsMeta(SuperBlocks(c.page[1]), 1);
    assert Content(c, 1) == disk[1];
    if n < SuperBlocks(c.page[1]) {
      var b := 2 + n / BITS_PER_BLOCK;
      assert IsMeta(SuperBlocks(c.page[1]), b);
      assert Content(c, b) == disk[b];
    }
  }

  lemma KeepMounted(c: Cache, c': Cache)
    requires Mounted(c) && Sized(c') && c'.super && c'.bitmap
    requires forall n: nat | n < MAXBLOCKS && IsMeta(SuperBlocks(c.page[1]), n) :: c'.page[n] == c.page[n] && c'.mapped[n]
    ensures Mounted(c') && forall n: nat | n < MAXBLOCKS :: IsFree(c', n) <==> IsFree(c, n)
  {
    hide SuperBlocks, Bit;
    assert IsMeta(SuperBlocks(c.page[1]), 1);
    forall n: nat | n < MAXBLOCKS ensures IsFree(c', n) <==> IsFree(c, n) {
      if n < SuperBlocks(c.page[1]) { assert IsMeta(SuperBlocks(c.page[1]), 2 + n / BITS_PER_BLOCK); }
    }
  }

  lemma KeepAgrees(c: Cache, c': Cache, disk: seq<Block>)
    requires Mounted(c) && Agrees(c, disk) && Sized(c') && c'.super && c'.bitmap
    requires forall n: nat | n < MAXBLOCKS && IsMeta(SuperBlocks(c.page[1]), n) :: c'.page[n] == c.page[n] && c'.mapped[n]
    requires forall n: nat | n < MAXBLOCKS && !IsFree(c, n) :: Content(c', n) == Content(c, n)
    ensures Mounted(c') && Agrees(c', disk)
  {
    hide SuperBlocks, Bit, IsFree, OnCard;
    KeepMounted(c, c');
  }

  /** The operations that only move blocks between cache and card. */
  lemma CacheOps(c: Cache, op: Op, disk: seq<Block>)
    requires Mounted(c) && Agrees(c, disk) && (op.Read? || op.Flush? || op.Unmap? || op.SyncAll?) && Do(c, op).Some?
    ensures Mounted(Do(c, op).value) && Agrees(Do(c, op).value, disk)
  {
    hide SuperBlocks, IsFree, OnCard;
    var c' := Do(c, op).value;
    forall n: nat | n < MAXBLOCKS && !IsFree(c, n) ensures Content(c', n) == Content(c, n) {
      match op
      case Read(m) => if !c.mapped[m] { LoadKeepsContent(c, m, n); }
      case Flush(m) => if c.mapped[m] { WriteKeepsContent(c, m, n); }
      case Unmap(m) => UnmapKeepsContent(c, m, n);
      case SyncAll => SyncWritesAll(c, SuperBlocks(c.page[1]), n);
    }
    KeepAgrees(c, c', disk);
  }

  lemma StoreOp(c: Cache, op: Op, disk: seq<Block>, blank: Block)
    requires Mounted(c) && Agrees(c, disk) && op.Store? && Do(c, op).Some?
    ensures Mounted(Do(c, op).value) && Agrees(Do(c, op).value, Logical(disk, op, blank))
  {
    hide SuperBlocks, IsFree, OnCard;
    var c' := Do(c, op).value;
    KeepMounted(c, c');
    forall n: nat | n < MAXBLOCKS && n != op.n ensures Content(c', n) == Content(c, n) { CardSame(c, c', n); }
  }

  /** Freeing or allocating block n: the bitmap block changes in the cache and on the logical disk. */
  lemma SetFreeAgrees(c: Cache, disk: seq<Block>, n: nat, free: bool)
    requires Mounted(c) && Agrees(c, disk) && IsData(c, n)
    ensures var c' := c.(page := SetFree(c.page, n, free));
      && Mounted(c')
      && (forall m: nat | m < MAXBLOCKS && m != n && !IsFree(c', m) :: Content(c', m) == SetFree(disk, n, free)[m])
  {
    hide SuperBlocks, Bit, WithBit, OnCard;
    var c' := c.(page := SetFree(c.page, n, free));
    var nb := SuperBlocks(c.page[1]);
    MetaAgrees(c, disk, n);
    assert IsMeta(nb, 2 + n / BITS_PER_BLOCK);
    forall m: nat | m < MAXBLOCKS ensures IsFree(c', m) <==> if m == n then free else IsFree(c, m) {
      SetFreeMarks(c.page, n, free, m);
    }
    assert forall m: nat | m < MAXBLOCKS && IsMeta(nb, m) :: m != n;
    forall m: nat | m < MAXBLOCKS && m != n && !IsFree(c', m) ensures Content(c', m) == SetFree(disk, n, free)[m] {
      CardSame(c, c', m);
    }
  }

  lemma {:induction false} SameFirstFree(page: seq<Block>, page': seq<Block>, k: nat, nb: nat)
    requires |page| == |page'| == MAXBLOCKS && k <= nb <= MAXBLOCKS && nb == SuperBlocks(page[1]) == SuperBlocks(page'[1])
    requires forall n: nat | n < MAXBLOCKS :: Marked(page, n) <==> Marked(page', n)
    ensures FirstFree(page, k, nb) == FirstFree(page', k, nb)
    decreases nb - k
  {
    hide SuperBlocks, Marked;
    if k < nb && !Marked(page, k) { SameFirstFree(page, page', k + 1, nb); }
  }

  lemma ReleaseOp(c: Cache, op: Op, disk: seq<Block>, blank: Block)
    requires Mounted(c) && Agrees(c, disk) && op.Release? && Do(c, op).Some?
    ensures Mounted(Do(c, op).value) && Agrees(Do(c, op).value, Logical(disk, op, blank))
  {
    hide SuperBlocks, Bit, WithBit, OnCard, SetFree, Mounted;
    SetFreeAgrees(c, disk, op.n, true);
    SetFreeMarks(c.page, op.n, true, op.n);
  }

  lemma SetFreeElsewhere(page: seq<Block>, n: nat, free: bool, m: nat)
    requires |page| == MAXBLOCKS && n < MAXBLOCKS && m < MAXBLOCKS
    ensures m != 2 + n / BITS_PER_BLOCK ==> SetFree(page, n, free)[m] == page[m]
  {
  }

  lemma AllocOp(c: Cache, disk: seq<Block>)
    requires Mounted(c) && Agrees(c, disk) && Do(c, Alloc).Some?
    ensures var c' := Do(c, Alloc).value; var r := FirstFree(c.page, 3, SuperBlocks(c.page[1]));
      Mounted(c') && Agrees(c', Logical(disk, Alloc, if r < MAXBLOCKS then Content(c', r) else Zeros(BLOCK)))
      && (r < SuperBlocks(c.page[1]) && r < MAXBLOCKS ==> Content(c', r) == if c.mapped[r] then c.page[r] else Zeros(BLOCK))
  {
    hide SuperBlocks, Bit, WithBit, OnCard, SetFree;
    var nb := SuperBlocks(c.page[1]);
    forall n: nat | n < MAXBLOCKS ensures Marked(disk, n) <==> Marked(c.page, n) { MetaAgrees(c, disk, n); }
    MetaAgrees(c, disk, 1);
    SameFirstFree(c.page, disk, 3, nb);
    var r := FirstFree(c.page, 3, nb);
    if r < nb {
      var c1 := c.(page := SetFree(c.page, r, false));
      var c' := MapBlock(c1, r);
      SetFreeElsewhere(c.page, r, false, r);
      SetFreeAgrees(c, disk, r, false);
      assert !IsMeta(nb, r) && IsMeta(nb, 2 + r / BITS_PER_BLOCK);
      KeepMounted(c1, c');
      forall m: nat | m < MAXBLOCKS && m != r ensures Content(c', m) == Content(c1, m) { CardSame(c1, c', m); }
    }
  }

  /** The cache refines the logical disk: every operation does to the blocks in use what it does there. */
  lemma OpRefines(c: Cache, op: Op, disk: seq<Block>) returns (blank: Block)
    requires Mounted(c) && Agrees(c, disk) && Do(c, op).Some?
    ensures Mounted(Do(c, op).value) && Agrees(Do(c, op).value, Logical(disk, op, blank))
    ensures op.Alloc? ==> var r := FirstFree(c.page, 3, SuperBlocks(c.page[1]));
              r < MAXBLOCKS && r < SuperBlocks(c.page[1]) ==> blank == if c.mapped[r] then c.page[r] else Zeros(BLOCK)
  {
    hide IsFree, SuperBlocks, Content;
    blank := Zeros(BLOCK);
    match op
    case Store(_, _, _) => StoreOp(c, op, disk, blank);
    case Release(_) => ReleaseOp(c, op, disk, blank);
    case Alloc =>
      var r := FirstFree(c.page, 3, SuperBlocks(c.page[1]));
      if r < MAXBLOCKS { blank := Content(Do(c, op).value, r); }
      AllocOp(c, disk);
    case _ => CacheOps(c, op, disk);
  }

  /** What each operation leaves behind: which blocks are in the cache, on the card and free. */
  ghost predicate Leaves(c: Cache, op: Op, c': Cache, n: nat)
    requires Mounted(c) && Sized(c') && n < MAXBLOCKS
  {
    var nb := SuperBlocks(c.page[1]);
    match op
    case Read(m) =>
      && c'.mapped[n] == (n == m || c.mapped[n]) && c'.card == c.card
      && c'.page[n] == if n == m then Content(c, n) else c.page[n]
    case Store(m, off, v) =>
      && c'.mapped == c.mapped && c'.card == c.card
      && forall k: nat | k < BLOCK :: c'.page[n][k] == if n == m && k == off then v else c.page[n][k]
    case Flush(m) =>
      && c'.mapped == c.mapped && c'.page == c.page
      && OnCard(c', n) == if n == m && c.mapped[n] then c.page[n] else OnCard(c, n)
    case Unmap(m) =>
      && c'.mapped[n] == (n != m && c.mapped[n]) && c'.page == c.page
      && OnCard(c', n) == if n == m && c.mapped[n] && !IsFree(c, n) then c.page[n] else OnCard(c, n)
    case SyncAll =>
      && c'.mapped == c.mapped && c'.page == c.page
      && OnCard(c', n) == if n < nb then Content(c, n) else OnCard(c, n)
    case Alloc =>
      if exists r: nat :: r < MAXBLOCKS && Lowest(c, r, nb)
      then exists r: nat :: r < MAXBLOCKS && Lowest(c, r, nb) && c'.card == c.card
             && c'.mapped[n] == (n == r || c.mapped[n]) && (IsFree(c', n) <==> n != r && IsFree(c, n))
      else c' == c
    case Release(m) => c'.mapped == c.mapped && c'.card == c.card && (IsFree(c', n) <==> n == m || IsFree(c, n))
  }

  /** The lowest free block behind the boot block, the super block and the first bitmap block. */
  ghost predicate Lowest(c: Cache, r: nat, nb: nat) requires Sized(c) {
    3 <= r < nb && r < MAXBLOCKS && IsFree(c, r) && forall i: nat | 3 <= i < r :: !IsFree(c, i)
  }

  lemma OpLeaves(c: Cache, op: Op, n: nat)
    requires Mounted(c) && Do(c, op).Some? && n < MAXBLOCKS
    ensures Leaves(c, op, Do(c, op).value, n)
  {
    hide SuperBlocks, Bit, WithBit, OnCard, Write, SetFree;
    match op
    case Read(m) => ReadBlockMaps(c, m);
    case Store(_, _, _) =>
    case Flush(m) => WriteCard(c, m, n);
    case Unmap(m) => UnmapBlockUnmaps(c, m, n);
    case SyncAll => SyncWritesAll(c, SuperBlocks(c.page[1]), n);
    case Alloc => AllocLeaves(c, n);
    case Release(m) => SetFreeMarks(c.page, m, true, n);
  }

  lemma AllocLeaves(c: Cache, n: nat)
    requires Mounted(c) && Do(c, Alloc).Some? && n < MAXBLOCKS
    ensures Leaves(c, Alloc, Do(c, Alloc).value, n)
  {
    hide Bit, WithBit, OnCard, Write, SetFree, SuperBlocks;
    var nb := SuperBlocks(c.page[1]);
    var r := FirstFree(c.page, 3, nb);
    if r < nb {
      assert Lowest(c, r, nb);
      var c1 := c.(page := SetFree(c.page, r, false));
      SetFreeMarks(c.page, r, false, n);
      assert IsFree(c1, n) <==> n != r && IsFree(c, n);
      MapBlockMaps(c1, r);
      SetFreeElsewhere(c.page, r, false, r);
      MapBlockMarks(c1, r, n, nb);
    }
  }

  /** Mapping block r leaves the bitmap alone, which is in other blocks. */
  lemma MapBlockMarks(c: Cache, r: nat, n: nat, nb: nat)
    requires Sized(c) && nb == SuperBlocks(c.page[1]) && 3 <= r < MAXBLOCKS && n < MAXBLOCKS
    requires n < nb ==> r != 2 + n / BITS_PER_BLOCK
    ensures IsFree(MapBlock(c, r), n) <==> IsFree(c, n)
  {
  }

  ghost function Run(c: Cache, ops: seq<Op>): (r: Option<Cache>)
    requires Sized(c)
    ensures r.Some? ==> Sized(r.value)
    decreases |ops|
  {
    if ops == [] then Some(c)
    else match Do(c, ops[0])
      case None => None
      case Some(c') => Run(c', ops[1..])
  }

  ghost function RunLogical(disk: seq<Block>, ops: seq<Op>, blanks: seq<Block>): (r: seq<Block>)
    requires |disk| == MAXBLOCKS && |blanks| == |ops|
    ensures |r| == MAXBLOCKS
    decreases |ops|
  {
    if ops == [] then disk else RunLogical(Logical(disk, ops[0], blanks[0]), ops[1..], blanks[1..])
  }

  /** ... over any sequence of operations that does not panic. */
  lemma {:induction false} RunRefines(c: Cache, ops: seq<Op>, disk: seq<Block>) returns (blanks: seq<Block>)
    requires Mounted(c) && Agrees(c, disk) && Run(c, ops).Some?
    ensures |blanks| == |ops| && Mounted(Run(c, ops).value) && Agrees(Run(c, ops).value, RunLogical(disk, ops, blanks))
    decreases |ops|
  {
    hide Mounted, IsFree, Do, Logical;
    blanks := [];
    if ops != [] {
      var blank := OpRefines(c, ops[0], disk);
      var rest := RunRefines(Do(c, ops[0]).value, ops[1..], Logical(disk, ops[0], blank));
      blanks := [blank] + rest;
      assert blanks[1..] == rest;
    }
  }
}
