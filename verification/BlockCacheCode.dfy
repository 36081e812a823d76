/** The file server's cache as the code keeps it: pages at DISKMAP, sectors on the card.  Every method
    is proved to do what the function of the same name in BlockCache says. */
module BlockCacheCode {
  import opened BlockCache
  import opened Wrappers

  lemma OnCardIs(c: Cache, n: nat)
    requires Sized(c) && n < MAXBLOCKS
    ensures OnCard(c, n) == Gather(c.card, Base(n), SECTORS_PER_BLOCK)
  {
  }

  class Disk {
    const mapped: array<bool>
    const page: array<Block>
    const card: array<Sector>
    var super: bool    // super != 0
    var bitmap: bool   // bitmap != 0

    constructor (card: array<Sector>)
      requires card.Length >= Base(MAXBLOCKS)
      ensures this.card == card && Laid() && fresh(mapped) && fresh(page)
      ensures !super && !bitmap && forall n | 0 <= n < MAXBLOCKS :: !mapped[n]
    {
      this.card := card;
      mapped := new bool[MAXBLOCKS](_ => false);
      page := new Block[MAXBLOCKS](_ => Zeros(4096));
      super, bitmap := false, false;
    }

    ghost function S(): Cache
      reads this, mapped, page, card
    {
      Cache(mapped[..], page[..], card[..], super, bitmap)
    }

    ghost predicate Laid() {
      mapped.Length == page.Length == MAXBLOCKS && card.Length >= Base(MAXBLOCKS)
    }

    /** sd_read, into the page of block n. */
    method SdRead(secno: nat, n: nat, nsecs: nat)
      requires Laid() && n < MAXBLOCKS && SEC_OFFSET + secno + nsecs <= card.Length && SECTOR * nsecs <= BLOCK
      modifies page
      ensures page[n] == Gather(card[..], SEC_OFFSET + secno, nsecs) + old(page[n])[SECTOR * nsecs..]
      ensures forall m | 0 <= m < MAXBLOCKS && m != n :: page[m] == old(page[m])
    {
      var current, end := SEC_OFFSET + secno, SEC_OFFSET + secno + nsecs;
      var offset := 0;
      while current < end
        invariant SEC_OFFSET + secno <= current <= end && offset == SECTOR * (current - SEC_OFFSET - secno)
        invariant page[n] == Gather(card[..], SEC_OFFSET + secno, current - SEC_OFFSET - secno) + old(page[n])[offset..]
        invariant forall m | 0 <= m < MAXBLOCKS && m != n :: page[m] == old(page[m])
      {
        var sector := card[current];
        page[n] := page[n][..offset] + sector + page[n][offset + SECTOR..];
        offset := offset + SECTOR;
        current := current + 1;
      }
    }

    /** sd_write, from the page of block n. */
    method SdWrite(secno: nat, n: nat, nsecs: nat)
      requires Laid() && n < MAXBLOCKS && SEC_OFFSET + secno + nsecs <= card.Length && SECTOR * nsecs <= BLOCK
      modifies card
      ensures card[..] == Scatter(old(card[..]), SEC_OFFSET + secno, page[n], nsecs)
    {
      var current, end := SEC_OFFSET + secno, SEC_OFFSET + secno + nsecs;
      var offset := 0;
      while current < end
        invariant SEC_OFFSET + secno <= current <= end && offset == SECTOR * (current - SEC_OFFSET - secno)
        invariant card[..] == Scatter(old(card[..]), SEC_OFFSET + secno, page[n], current - SEC_OFFSET - secno)
      {
        card[current] := page[n][offset..offset + SECTOR];
        offset := offset + SECTOR;
        current := current + 1;
      }
    }

    /** block_is_free */
    method BlockIsFree(n: nat) returns (free: bool)
      requires Laid() && n < MAXBLOCKS
      ensures free == IsFree(S(), n)
    {
      if !super || n >= SuperBlocks(page[1]) { return false; }
      free := ByteBit(page[2 + n / BITS_PER_BLOCK][n % BITS_PER_BLOCK / 8], n % BITS_PER_BLOCK % 8);
    }

    /** read_block; no is the panic. */
    method ReadBlock(n: nat) returns (ok: bool, isNew: bool)
      requires Laid() && n < MAXBLOCKS
      modifies mapped, page
      ensures ok <==> InRange(old(S()), n) && !(bitmap && IsFree(old(S()), n))
      ensures ok ==> S() == BlockCache.ReadBlock(old(S()), n) && (isNew <==> !old(mapped[n]))
    {
      hide OnCard;
      isNew := false;
      if super && n >= SuperBlocks(page[1]) { return false, false; }
      if bitmap {
        var free := BlockIsFree(n);
        if free { return false, false; }
      }
      if !mapped[n] {
        isNew := true;
        mapped[n] := true;
        SdRead(n * SECTORS_PER_BLOCK, n, SECTORS_PER_BLOCK);
        OnCardIs(old(S()), n);
        assert old(S()).card == card[..] && page[n] == OnCard(old(S()), n);
      }
      ok := true;
    }

    /** diskaddr, as far as it may panic; blocks beyond the largest disk are mapped nowhere. */
    method CheckRange(n: nat) returns (ok: bool)
      requires Laid()
      ensures ok <==> InRange(S(), n)
    {
      if n >= MAXBLOCKS { return false; }
      ok := !super || n < SuperBlocks(page[1]);
    }

    /** write_block; no is the panic, of block_is_mapped for a number out of range or its own. */
    method WriteBlock(n: nat) returns (ok: bool)
      requires Laid()
      modifies card
      ensures ok <==> InRange(S(), n) && mapped[n]
      ensures S() == if ok then Write(old(S()), n) else old(S())
    {
      ok := CheckRange(n);
      if !ok { return; }
      if !mapped[n] { return false; }
      SdWrite(n * SECTORS_PER_BLOCK, n, SECTORS_PER_BLOCK);
    }

    /** map_block, when pages are left; no is the panic. */
    method MapBlock(n: nat) returns (ok: bool)
      requires Laid()
      modifies mapped, page
      ensures ok <==> InRange(old(S()), n)
      ensures S() == if ok then BlockCache.MapBlock(old(S()), n) else old(S())
    {
      ok := CheckRange(n);
      if !ok || mapped[n] { return; }
      mapped[n] := true;
      page[n] := Zeros(BLOCK);
    }

    /** unmap_block; no is the panic. */
    method UnmapBlock(n: nat) returns (ok: bool)
      requires Laid()
      modifies mapped, card
      ensures ok <==> InRange(old(S()), n)
      ensures S() == if ok then BlockCache.UnmapBlock(old(S()), n) else old(S())
    {
      ok := CheckRange(n);
      if !ok || !mapped[n] { return; }
      ghost var c := S();
      var free := BlockIsFree(n);
      if !free {
        var _ := WriteBlock(n);
      }
      mapped[n] := false;
      assert S() == Drop(if free then c else Write(c, n), n);
    }

    /** fs_sync */
    method FsSync()
      requires Laid() && SuperBlocks(page[1]) <= MAXBLOCKS
      modifies card
      ensures S() == Sync(old(S()), SuperBlocks(page[1]))
    {
      var i := 0;
      while i < SuperBlocks(page[1])
        invariant 0 <= i <= SuperBlocks(page[1]) && S() == Sync(old(S()), i)
      {
        if mapped[i] {
          var _ := WriteBlock(i);
        }
        i := i + 1;
      }
    }

    /** alloc_block_num; None is -E_NO_DISK. */
    method AllocBlockNum() returns (r: Option<nat>)
      requires Laid() && 3 <= SuperBlocks(page[1]) <= MAXBLOCKS
      modifies page
      ensures var nb := SuperBlocks(old(page[1])); var n := FirstFree(old(page[..]), 3, nb);
        if n == nb then r.None? && page[..] == old(page[..])
        else r == Some(n) && page[..] == SetFree(old(page[..]), n, false)
    {
      var n := 3;
      while n < SuperBlocks(page[1])
        invariant 3 <= n <= SuperBlocks(page[1])
        invariant FirstFree(page[..], 3, SuperBlocks(page[1])) == FirstFree(page[..], n, SuperBlocks(page[1]))
      {
        hide SuperBlocks, ByteBit, WithByteBit;
        var b, j := 2 + n / BITS_PER_BLOCK, n % BITS_PER_BLOCK;
        if ByteBit(page[b][j / 8], j % 8) {
          page[b] := page[b][j / 8 := WithByteBit(page[b][j / 8], j % 8, false)];
          return Some(n);
        }
        n := n + 1;
      }
      r := None;
    }

    /** free_block; no is the panic. */
    method FreeBlock(n: nat) returns (ok: bool)
      requires Laid() && n < MAXBLOCKS
      modifies page
      ensures ok <==> n != 0 && InRange(old(S()), n)
      ensures page[..] == if ok then SetFree(old(page[..]), n, true) else old(page[..])
    {
      if n == 0 || (super && n >= SuperBlocks(page[1])) { return false; }
      var b, j := 2 + n / BITS_PER_BLOCK, n % BITS_PER_BLOCK;
      page[b] := page[b][j / 8 := WithByteBit(page[b][j / 8], j % 8, true)];
      ok := true;
    }

    /** check_write_block, after read_super and before read_bitmap; both of its own checks hold. */
    method CheckWriteBlock()
      requires Laid() && mapped[1] && !bitmap
      modifies this`super, mapped, page, card
      ensures S() == BlockCache.CheckWriteBlock(old(S()))
    {
      hide OnCard, Write, Smash;
      super := false;
      ghost var c0 := S();
      var _, _ := ReadBlock(0);
      ghost var c1 := S();
      page[0] := page[1];
      page[1] := Smash(page[1]);
      ghost var c2 := S();
      assert c2.page == c1.page[0 := c1.page[1]][1 := Smash(c1.page[1])];
      var _ := WriteBlock(1);
      assert mapped[1];
      ghost var c3 := S();
      assert c3 == Write(c2, 1);
      mapped[1] := false;
      assert !mapped[1];
      assert S() == Drop(c3, 1);
      var _, _ := ReadBlock(1);
      ghost var c4 := S();
      assert c4 == Load(Drop(c3, 1), 1);
      assert page[1] == Smash(c1.page[1]) by {
        SmashReadsBack(c1.(page := c1.page[0 := c1.page[1]]));
      }
      page[1] := page[0];
      assert S() == c4.(page := c4.page[1 := c4.page[0]]);
      var _ := WriteBlock(1);
      super := true;
    }
  }
}
