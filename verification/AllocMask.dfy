/** page_alloc of mm/pmap.c with the mask it is written with: `1 << j` is an int, so that bit 31 widens
    to bits 31 to 63 of the word, and shift counts from 32 on are taken modulo 32 by the processor. */
module AllocMask {
  import opened PageTables

  const WORD: nat := 64

  /** Whether bit b of a word is in the mask for j. */
  predicate InMask(j: nat, b: nat) {
    if j % 32 == 31 then 31 <= b < WORD else b == j % 32
  }

  /** Bit b of word i. */
  predicate BitOf(vis: seq<bool>, i: nat, b: nat)
    requires WORD * (i + 1) <= |vis| && b < WORD
  {
    vis[WORD * i + b]
  }

  /** (Kern_vis[i] & mask) == 0 */
  predicate Clear(vis: seq<bool>, i: nat, j: nat)
    requires WORD * (i + 1) <= |vis|
  {
    forall b: nat | b < WORD && InMask(j, b) :: !BitOf(vis, i, b)
  }

  /** Kern_vis[i] |= mask */
  function Marked(vis: seq<bool>, i: nat, j: nat): (r: seq<bool>)
    ensures |r| == |vis|
  {
    seq(|vis|, q requires 0 <= q < |vis| => vis[q] || (WORD * i <= q < WORD * (i + 1) && InMask(j, q - WORD * i)))
  }

  /** Word i has a page that the code can find: one of its pages 0 to 30, or all of 31 to 63 together. */
  predicate Findable(vis: seq<bool>, i: nat)
    requires WORD * (i + 1) <= |vis|
  {
    (exists b: nat | b < 31 :: !BitOf(vis, i, b)) || forall b: nat | 31 <= b < WORD :: !BitOf(vis, i, b)
  }

  lemma FindableIsClear(vis: seq<bool>, i: nat, j: nat)
    requires WORD * (i + 1) <= |vis| && Clear(vis, i, j)
    ensures Findable(vis, i) && !BitOf(vis, i, j % 32) && Clear(vis, i, j % 32)
  {
    assert InMask(j, j % 32);
    assert forall b: nat :: InMask(j % 32, b) <==> InMask(j, b);
    if j % 32 == 31 {
      assert forall b: nat | 31 <= b < WORD :: InMask(j, b);
    }
  }

  lemma ClearIsFound(vis: seq<bool>, i: nat)
    requires WORD * (i + 1) <= |vis| && forall j: nat | j < 32 :: !Clear(vis, i, j)
    ensures !Findable(vis, i)
  {
    forall b: nat | b < 31 ensures BitOf(vis, i, b) {
      assert !Clear(vis, i, b);
      assert forall c: nat | c < WORD && InMask(b, c) :: c == b;
    }
    assert !Clear(vis, i, 31);
  }

  method MarkWord(vis: array<bool>, i: nat, j: nat)
    requires WORD * (i + 1) <= vis.Length
    modifies vis
    ensures vis[..] == Marked(old(vis[..]), i, j)
  {
    for b := 0 to 64
      invariant forall q | 0 <= q < vis.Length ::
        vis[q] == (old(vis[q]) || (WORD * i <= q < WORD * i + b && InMask(j, q - WORD * i)))
    {
      if InMask(j, b) { vis[WORD * i + b] := true; }
    }
  }

  /** The code never hands out an allocated page.  It finds pages only in the lower half of a word, and
      fails although pages are free exactly when no word is findable. */
  method PageAllocAsWritten(vis: array<bool>) returns (ok: bool, pp: nat)
    requires vis.Length == NPAGE
    modifies vis
    ensures ok ==> pp < NPAGE && pp % WORD < 32 && !old(vis[pp]) && vis[..] == Marked(old(vis[..]), pp / WORD, pp % WORD)
    ensures ok <==> exists i: nat | i < NPAGE / WORD :: Findable(old(vis[..]), i)
    ensures !ok ==> vis[..] == old(vis[..])
  {
    hide Clear, Findable, InMask;
    ghost var before := vis[..];
    for i := 0 to NPAGE / WORD
      invariant vis[..] == before && forall k: nat | k < i :: !Findable(before, k)
    {
      for j := 0 to 64
        invariant vis[..] == before && forall k: nat | k < j :: !Clear(before, i, k)
      {
        if Clear(vis[..], i, j) {
          FindableIsClear(before, i, j);
          assert j % 32 == j;
          pp := WORD * i + j;
          MarkWord(vis, i, j);
          return true, pp;
        }
      }
      ClearIsFound(before, i);
    }
    ok, pp := false, 0;
  }

  /** What is lost: once page 31 of a word has been handed out, pages 32 to 63 count as allocated though
      nobody has them, and as long as one of them does, page 31 is not found again after it was freed. */
  lemma UpperHalfIsLost(vis: seq<bool>, i: nat, later: seq<bool>, b: nat)
    requires WORD * (i + 1) <= |vis| == |later| && Clear(vis, i, 31) && 31 < b < WORD
    ensures !vis[WORD * i + b] && Marked(vis, i, 31)[WORD * i + b]
    ensures later[WORD * i + b] ==> !Clear(later, i, 31) && !Clear(later, i, 63)
  {
    assert InMask(31, b) && InMask(63, b);
  }
}
