/** Machine integers shared by every module. */
module Machine {
  /** A 32-bit machine word: `uint32_t`, `size_t` and every pointer on i386. */
  type Word = x: int | 0 <= x < 0x1_0000_0000

  type Byte = x: int | 0 <= x < 0x100

  /** A byte of a C string: anything but the terminating NUL. */
  type Char = x: int | 0 < x < 0x100 witness 1

  function Pow2(k: nat): (p: nat)
    ensures 0 < p
  {
    if k == 0 then 1 else 2 * Pow2(k - 1)
  }
}

/** The kernel heap seen as a sequence of blocks: what the in-band headers of
    mm/kheap.c stand for, and the laws of first-fit allocation with splitting
    and two-sided coalescing. Lengths and offsets count 32-bit words. */
module HeapModel {
  import opened Machine

  const HEAP_WORDS: nat := 0x10_0000  // 4 MiB
  const HEADER: nat := 5              // sizeof(struct block) == 20
  const MIN_SPLIT: nat := 4           // 16 bytes

  /** One block: word offset of its header, payload length in words, free flag. */
  datatype Block = Block(at: nat, len: nat, free: bool) {
    function End(): nat { at + HEADER + len }
  }

  /** The blocks cover the heap exactly: no gap, no overlap, no slack. */
  ghost predicate Tiled(bs: seq<Block>) {
    && 0 < |bs|
    && bs[0].at == 0
    && bs[|bs| - 1].End() == HEAP_WORDS
    && forall i, j :: 0 <= i < j < |bs| && j == i + 1 ==> bs[i].End() == bs[j].at
  }

  /** No two neighbouring blocks are both free. */
  ghost predicate Coalesced(bs: seq<Block>) {
    forall i, j :: 0 <= i < j < |bs| && j == i + 1 ==> !(bs[i].free && bs[j].free)
  }

  ghost predicate Sound(bs: seq<Block>) {
    Tiled(bs) && Coalesced(bs)
  }

  ghost function Live(bs: seq<Block>): set<Block> {
    set b | b in bs && !b.free
  }

  function Fresh(): seq<Block> {
    [Block(0, HEAP_WORDS - HEADER, true)]
  }

  // ---- Requests ----------------------------------------------------------

  /** ALIGN_UP(size, 8) in 32-bit arithmetic: it wraps for the last seven sizes. */
  function AlignUp8(size: Word): Word {
    (size + 7) % 0x1_0000_0000 / 8 * 8
  }

  /** The rounded request in words. */
  function Rounded(size: Word): nat {
    (size + 7) % 0x1_0000_0000 / 8 * 2
  }

  // ---- Operations on block sequences -------------------------------------

  predicate Fits(b: Block, n: nat) {
    b.free && n <= b.len
  }

  /** Index of the first block from `i` on that fits, or |bs|. */
  function FirstFit(bs: seq<Block>, n: nat, i: nat := 0): (k: nat)
    requires i <= |bs|
    ensures i <= k <= |bs|
    ensures k < |bs| ==> Fits(bs[k], n)
    ensures forall j :: i <= j < k ==> !Fits(bs[j], n)
    decreases |bs| - i
  {
    if i == |bs| || Fits(bs[i], n) then i else FirstFit(bs, n, i + 1)
  }

  function SetFree(bs: seq<Block>, i: nat, free: bool): seq<Block>
    requires i < |bs|
  {
    bs[i := bs[i].(free := free)]
  }

  function Split(bs: seq<Block>, i: nat, n: nat): seq<Block>
    requires i < |bs| && n <= bs[i].len
  {
    var b := bs[i];
    if b.len < n + HEADER + MIN_SPLIT then bs
    else bs[..i] + [b.(len := n), Block(b.at + HEADER + n, b.len - n - HEADER, true)] + bs[i + 1..]
  }

  function MergeNext(bs: seq<Block>, i: nat): seq<Block>
    requires i < |bs|
  {
    if i + 1 < |bs| && bs[i].free && bs[i + 1].free
    then bs[..i] + [bs[i].(len := bs[i].len + HEADER + bs[i + 1].len)] + bs[i + 2..]
    else bs
  }

  /** The block sequence after kmalloc of a request rounded to `n` words. */
  function Malloc(bs: seq<Block>, n: nat): seq<Block> {
    var i := FirstFit(bs, n);
    if i == |bs| then bs else SetFree(Split(bs, i, n), i, false)
  }

  function Free(bs: seq<Block>, i: nat): seq<Block>
    requires i < |bs|
  {
    var merged := MergeNext(SetFree(bs, i, true), i);
    if 0 < i && merged[i - 1].free then MergeNext(merged, i - 1) else merged
  }

  // ---- Tiling ------------------------------------------------------------

  lemma {:induction false} Ordered(bs: seq<Block>, i: nat, j: nat)
    requires Tiled(bs) && i < j < |bs|
    ensures bs[i].End() <= bs[j].at
    decreases j
  {
    if i + 1 < j {
      Ordered(bs, i, j - 1);
    }
  }

  lemma InHeap(bs: seq<Block>, i: nat)
    requires Tiled(bs) && i < |bs|
    ensures bs[i].End() <= HEAP_WORDS
  {
    if i + 1 < |bs| {
      Ordered(bs, i, |bs| - 1);
    }
  }

  lemma Bounded(bs: seq<Block>)
    requires Tiled(bs)
    ensures forall i :: 0 <= i < |bs| ==> bs[i].End() <= HEAP_WORDS
    ensures forall i, j :: 0 <= i < j < |bs| ==> bs[i].End() <= bs[j].at
  {
    forall i, j | 0 <= i < j < |bs| ensures bs[i].End() <= bs[j].at {
      Ordered(bs, i, j);
    }
  }

  /** Live payloads lie inside the heap and meet neither another payload nor any header. */
  lemma Disjoint(bs: seq<Block>, a: Block, b: Block)
    requires Tiled(bs) && a in bs && b in bs && a != b
    ensures a.End() <= HEAP_WORDS
    ensures a.End() <= b.at || b.End() <= a.at
    ensures a.at != b.at
  {
    var i :| 0 <= i < |bs| && bs[i] == a;
    var j :| 0 <= j < |bs| && bs[j] == b;
    Bounded(bs);
  }

  lemma SplitIndex(bs: seq<Block>, i: nat, n: nat)
    requires i < |bs| && n + HEADER + MIN_SPLIT <= bs[i].len
    ensures var after := Split(bs, i, n);
      && |after| == |bs| + 1
      && after[i] == bs[i].(len := n)
      && after[i + 1] == Block(bs[i].at + HEADER + n, bs[i].len - n - HEADER, true)
      && (forall j :: 0 <= j < i ==> after[j] == bs[j])
      && (forall j :: i + 2 <= j < |after| ==> after[j] == bs[j - 1])
  {
  }

  lemma SplitSound(bs: seq<Block>, i: nat, n: nat)
    requires Tiled(bs) && i < |bs| && n <= bs[i].len
    ensures Tiled(Split(bs, i, n))
  {
  }

  lemma MergeIndex(bs: seq<Block>, i: nat)
    requires i + 1 < |bs| && bs[i].free && bs[i + 1].free
    ensures var after := MergeNext(bs, i);
      && |after| == |bs| - 1
      && after[i] == bs[i].(len := bs[i].len + HEADER + bs[i + 1].len)
      && (forall j :: 0 <= j < i ==> after[j] == bs[j])
      && (forall j :: i + 1 <= j < |after| ==> after[j] == bs[j + 1])
  {
    var pre, post := bs[..i], bs[i + 2..];
    var merged := bs[i].(len := bs[i].len + HEADER + bs[i + 1].len);
    var after := pre + [merged] + post;
    forall j | i + 1 <= j < |after| ensures after[j] == bs[j + 1] {
      assert after[j] == post[j - i - 1];
    }
  }

  lemma MergeSound(bs: seq<Block>, i: nat)
    requires Tiled(bs) && i < |bs|
    ensures Tiled(MergeNext(bs, i))
  {
  }

  /** Splitting a free block whose neighbours are in use leaves no two free neighbours but its
      own two halves. */
  lemma SplitCoalesces(bs: seq<Block>, i: nat, n: nat)
    requires Coalesced(bs) && i < |bs| && bs[i].free && n + HEADER + MIN_SPLIT <= bs[i].len
    ensures forall j, k :: 0 <= j < k < |Split(bs, i, n)| && k == j + 1 && j != i ==>
      !(Split(bs, i, n)[j].free && Split(bs, i, n)[k].free)
  {
    var after := Split(bs, i, n);
    SplitIndex(bs, i, n);
    forall j, k | 0 <= j < k < |after| && k == j + 1 && j != i ensures !(after[j].free && after[k].free) {
      if j < i {
        assert after[k].free == bs[k].free;
      } else if j == i + 1 {
        assert k < |after| && after[k] == bs[k - 1] && !(bs[i].free && bs[i + 1].free);
      } else {
        assert after[j] == bs[j - 1] && after[k] == bs[k - 1];
      }
    }
  }

  /** Marking block `i` used keeps the tiling, and settles the pairs it is in. */
  lemma MarkUsedSound(bs: seq<Block>, i: nat)
    requires Tiled(bs) && i < |bs|
    requires forall j, k :: 0 <= j < k < |bs| && k == j + 1 && j != i ==> !(bs[j].free && bs[k].free)
    ensures Sound(SetFree(bs, i, false))
  {
  }

  lemma MallocSound(bs: seq<Block>, n: nat)
    requires Sound(bs)
    ensures Sound(Malloc(bs, n))
  {
    var i := FirstFit(bs, n);
    if i < |bs| {
      SplitSound(bs, i, n);
      if n + HEADER + MIN_SPLIT <= bs[i].len {
        SplitCoalesces(bs, i, n);
      }
      MarkUsedSound(Split(bs, i, n), i);
    }
  }

  /** The fitting block is cut exactly when a header and 16 bytes are left over: the grant is then
      of the size asked for and the rest is a free block behind it. Otherwise all of it is granted. */
  lemma MallocCutsIff(bs: seq<Block>, n: nat)
    requires FirstFit(bs, n) < |bs|
    ensures var i, after := FirstFit(bs, n), Malloc(bs, n);
      && (|after| == |bs| + 1 <==> n + 9 <= bs[i].len)
      && (|after| == |bs| + 1 ==>
            && after[i] == Block(bs[i].at, n, false) && after[i + 1].free
            && 4 * after[i + 1].len == 4 * bs[i].len - 4 * n - 20 && 16 <= 4 * after[i + 1].len)
      && (|after| != |bs| + 1 ==> after == bs[i := Block(bs[i].at, bs[i].len, false)])
  {
    var i := FirstFit(bs, n);
    if n + 9 <= bs[i].len {
      SplitIndex(bs, i, n);
    }
  }

  /** No two neighbours are both free, except perhaps those at `p` and `p + 1`. */
  ghost predicate CoalescedBut(bs: seq<Block>, p: int) {
    forall j, k :: 0 <= j < k < |bs| && k == j + 1 && j != p ==> !(bs[j].free && bs[k].free)
  }

  /** Merging block `i` with its successor leaves only its predecessor to check. */
  lemma MergeCoalesces(bs: seq<Block>, i: nat)
    requires i < |bs|
    requires forall j, k :: 0 <= j < k < |bs| && k == j + 1 && j != i - 1 && j != i ==> !(bs[j].free && bs[k].free)
    ensures CoalescedBut(MergeNext(bs, i), i - 1)
  {
    if i + 1 < |bs| && bs[i].free && bs[i + 1].free {
      MergeIndex(bs, i);
    }
  }

  lemma MergePrefix(bs: seq<Block>, i: nat)
    requires i < |bs|
    ensures i < |MergeNext(bs, i)|
    ensures forall j :: 0 <= j < i ==> MergeNext(bs, i)[j] == bs[j]
    ensures MergeNext(bs, i)[i].free == bs[i].free
  {
  }

  lemma FreeSound(bs: seq<Block>, i: nat)
    requires Sound(bs) && i < |bs|
    ensures Sound(Free(bs, i))
  {
    var marked := SetFree(bs, i, true);
    MergeSound(marked, i);
    MergeCoalesces(marked, i);
    MergePrefix(marked, i);
    MergeBackSound(MergeNext(marked, i), i);
  }

  lemma MergeBackSound(bs: seq<Block>, i: nat)
    requires Tiled(bs) && i < |bs| && bs[i].free && CoalescedBut(bs, i - 1)
    ensures Sound(if 0 < i && bs[i - 1].free then MergeNext(bs, i - 1) else bs)
  {
    if 0 < i && bs[i - 1].free {
      MergeSound(bs, i - 1);
      MergeCoalesces(bs, i - 1);
      MergePrefix(bs, i - 1);
    }
  }

  // ---- The live set ------------------------------------------------------

  /** Live members of a sequence, one position singled out. */
  lemma LiveAround(pre: seq<Block>, b: Block, post: seq<Block>)
    ensures Live(pre + [b] + post) == Live(pre) + Live([b]) + Live(post)
  {
    forall x ensures x in pre + [b] + post <==> x in pre || x == b || x in post {
    }
  }

  lemma LiveConcat(xs: seq<Block>, ys: seq<Block>)
    ensures Live(xs + ys) == Live(xs) + Live(ys)
  {
  }

  lemma LiveAt(bs: seq<Block>, i: nat)
    requires i < |bs|
    ensures Live(bs) == Live(bs[..i]) + Live([bs[i]]) + Live(bs[i + 1..])
  {
    LiveAround(bs[..i], bs[i], bs[i + 1..]);
    assert bs == bs[..i] + [bs[i]] + bs[i + 1..];
  }

  lemma SplitLive(bs: seq<Block>, i: nat, n: nat)
    requires i < |bs| && bs[i].free && n <= bs[i].len
    ensures Live(Split(bs, i, n)) == Live(bs)
  {
    if n + HEADER + MIN_SPLIT <= bs[i].len {
      LiveAt(bs, i);
      var kept, rest := bs[i].(len := n), Block(bs[i].at + HEADER + n, bs[i].len - n - HEADER, true);
      LiveAround(bs[..i], kept, [rest] + bs[i + 1..]);
      LiveConcat([rest], bs[i + 1..]);
      assert Split(bs, i, n) == bs[..i] + [kept] + ([rest] + bs[i + 1..]);
    }
  }

  lemma SetUsedLive(bs: seq<Block>, i: nat)
    requires i < |bs| && bs[i].free
    ensures Live(SetFree(bs, i, false)) == Live(bs) + {bs[i].(free := false)}
  {
    LiveAt(bs, i);
    LiveAround(bs[..i], bs[i].(free := false), bs[i + 1..]);
    assert SetFree(bs, i, false) == bs[..i] + [bs[i].(free := false)] + bs[i + 1..];
    assert Live([bs[i]]) == {};
  }

  /** kmalloc adds exactly one live block, carved from a free one; nothing else moves. */
  lemma MallocLive(bs: seq<Block>, n: nat)
    requires Tiled(bs) && FirstFit(bs, n) < |bs|
    ensures FirstFit(bs, n) < |Malloc(bs, n)|
    ensures var i := FirstFit(bs, n);
      var g := Malloc(bs, n)[i];
      && !g.free && g.at == bs[i].at && n <= g.len < n + 9 && g.len <= bs[i].len
      && Live(Malloc(bs, n)) == Live(bs) + {g}
      && (forall b :: b in Live(bs) ==> b.at != g.at)
  {
    var i := FirstFit(bs, n);
    SplitLive(bs, i, n);
    SetUsedLive(Split(bs, i, n), i);
    forall b | b in Live(bs) ensures b.at != bs[i].at {
      Disjoint(bs, b, bs[i]);
    }
  }

  lemma MergeLive(bs: seq<Block>, i: nat)
    requires i < |bs|
    ensures Live(MergeNext(bs, i)) == Live(bs)
  {
    if i + 1 < |bs| && bs[i].free && bs[i + 1].free {
      var merged := bs[i].(len := bs[i].len + HEADER + bs[i + 1].len);
      LiveAround(bs[..i], merged, bs[i + 2..]);
      LiveAt(bs, i);
      assert bs[i + 1..] == [bs[i + 1]] + bs[i + 2..];
      LiveConcat([bs[i + 1]], bs[i + 2..]);
    }
  }

  lemma SetFreeLive(bs: seq<Block>, i: nat)
    requires Tiled(bs) && i < |bs| && !bs[i].free
    ensures Live(SetFree(bs, i, true)) == Live(bs) - {bs[i]}
  {
    LiveAt(bs, i);
    LiveAround(bs[..i], bs[i].(free := true), bs[i + 1..]);
    assert SetFree(bs, i, true) == bs[..i] + [bs[i].(free := true)] + bs[i + 1..];
    Bounded(bs);
    assert bs[i] !in bs[..i] && bs[i] !in bs[i + 1..];
  }

  /** kfree removes exactly the freed block from the live set. */
  lemma FreeLive(bs: seq<Block>, i: nat)
    requires Tiled(bs) && i < |bs| && !bs[i].free
    ensures Live(Free(bs, i)) == Live(bs) - {bs[i]}
  {
    var marked := SetFree(bs, i, true);
    SetFreeLive(bs, i);
    var merged := MergeNext(marked, i);
    MergeLive(marked, i);
    if 0 < i && merged[i - 1].free {
      MergeLive(merged, i - 1);
    }
  }

  // ---- kfree undoes kmalloc ------------------------------------------------

  /** Merging a free block with the rest split off it gives the block back. */
  lemma SplitMerges(bs: seq<Block>, i: nat, n: nat)
    requires i < |bs| && bs[i].free && n + HEADER + MIN_SPLIT <= bs[i].len
    ensures MergeNext(Split(bs, i, n), i) == bs
  {
    var cut := Split(bs, i, n);
    SplitIndex(bs, i, n);
    assert cut[i + 2..] == bs[i + 1..] && cut[..i] == bs[..i];
    assert bs == bs[..i] + [bs[i]] + bs[i + 1..];
  }

  /** Freeing the block just granted restores the very same block sequence. */
  lemma FreeUndoesMalloc(bs: seq<Block>, n: nat)
    requires Sound(bs) && FirstFit(bs, n) < |bs|
    ensures FirstFit(bs, n) < |Malloc(bs, n)|
    ensures Free(Malloc(bs, n), FirstFit(bs, n)) == bs
  {
    var i := FirstFit(bs, n);
    var after := Malloc(bs, n);
    var marked := SetFree(after, i, true);
    if bs[i].len < n + HEADER + MIN_SPLIT {
      assert marked == bs;
      assert MergeNext(marked, i) == bs;
    } else {
      assert marked == Split(bs, i, n);
      SplitMerges(bs, i, n);
    }
  }

  /** A sound heap with nothing live is the heap as it was booted. */
  lemma NothingLive(bs: seq<Block>)
    requires Sound(bs) && Live(bs) == {}
    ensures bs == Fresh()
  {
    forall i | 0 <= i < |bs| ensures bs[i].free {
      var b := bs[i];
      assert b.free || b in Live(bs);
    }
    if 1 < |bs| {
      assert bs[0].free && bs[1].free;
    }
  }

  function IndexOf(bs: seq<Block>, b: Block): (i: nat)
    requires b in bs
    ensures i < |bs| && bs[i] == b
  {
    if bs[0] == b then 0 else 1 + IndexOf(bs[1..], b)
  }

  /** Free the given blocks one after another. */
  function FreeAll(bs: seq<Block>, order: seq<Block>): seq<Block>
    decreases |order|
  {
    if order == [] then bs
    else if order[0] in bs then FreeAll(Free(bs, IndexOf(bs, order[0])), order[1..])
    else bs
  }

  /** Whatever the order in which the live blocks are freed, all of them can be,
      and the heap ends as one free block of 4 MiB minus one header. */
  lemma {:induction false} FreeAllRestores(bs: seq<Block>, order: seq<Block>)
    requires Sound(bs)
    requires forall b :: b in order <==> b in Live(bs)
    requires forall i, j :: 0 <= i < j < |order| ==> order[i] != order[j]
    ensures FreeAll(bs, order) == Fresh()
    decreases |order|
  {
    if order == [] {
      assert Live(bs) == {};
      NothingLive(bs);
    } else {
      assert order[0] in Live(bs);
      var i := IndexOf(bs, order[0]);
      FreeSound(bs, i);
      FreeLive(bs, i);
      forall b ensures b in order[1..] <==> b in Live(Free(bs, i)) {
        assert b in order <==> b == order[0] || b in order[1..];
      }
      FreeAllRestores(Free(bs, i), order[1..]);
    }
  }

  // ---- When kmalloc succeeds -----------------------------------------------

  function Total(bs: seq<Block>): nat {
    if bs == [] then 0 else Total(bs[..|bs| - 1]) + bs[|bs| - 1].len
  }

  function Used(bs: seq<Block>): nat {
    if bs == [] then 0
    else Used(bs[..|bs| - 1]) + if bs[|bs| - 1].free then 0 else bs[|bs| - 1].len
  }

  lemma {:induction false} UsedConcat(xs: seq<Block>, ys: seq<Block>)
    ensures Used(xs + ys) == Used(xs) + Used(ys)
  {
    if ys == [] {
      assert xs + ys == xs;
    } else {
      var init := ys[..|ys| - 1];
      assert (xs + ys)[..|xs + ys| - 1] == xs + init;
      UsedConcat(xs, init);
    }
  }

  lemma UsedAround(pre: seq<Block>, b: Block, post: seq<Block>)
    ensures Used(pre + [b] + post) == Used(pre) + (if b.free then 0 else b.len) + Used(post)
  {
    UsedConcat(pre + [b], post);
    UsedConcat(pre, [b]);
    assert [b][..0] == [];
  }

  lemma UsedAt(bs: seq<Block>, i: nat)
    requires i < |bs|
    ensures Used(bs) == Used(bs[..i]) + (if bs[i].free then 0 else bs[i].len) + Used(bs[i + 1..])
  {
    UsedAround(bs[..i], bs[i], bs[i + 1..]);
    assert bs == bs[..i] + [bs[i]] + bs[i + 1..];
  }

  lemma UsedSetFree(bs: seq<Block>, i: nat, free: bool)
    requires i < |bs| && bs[i].free != free
    ensures Used(SetFree(bs, i, free)) == if free then Used(bs) - bs[i].len else Used(bs) + bs[i].len
  {
    UsedAt(bs, i);
    UsedAt(SetFree(bs, i, free), i);
    assert SetFree(bs, i, free)[..i] == bs[..i] && SetFree(bs, i, free)[i + 1..] == bs[i + 1..];
  }

  lemma UsedTwo(pre: seq<Block>, a: Block, b: Block, post: seq<Block>)
    requires a.free && b.free
    ensures Used(pre + [a, b] + post) == Used(pre) + Used(post)
  {
    UsedConcat(pre + [a, b], post);
    UsedConcat(pre, [a, b]);
    assert [a][..0] == [] && Used([a]) == 0;
    assert [a, b][..1] == [a] && Used([a, b]) == 0;
  }

  lemma UsedSplit(bs: seq<Block>, i: nat, n: nat)
    requires i < |bs| && bs[i].free && n <= bs[i].len
    ensures Used(Split(bs, i, n)) == Used(bs)
  {
    if n + HEADER + MIN_SPLIT <= bs[i].len {
      UsedAt(bs, i);
      var kept, rest := bs[i].(len := n), Block(bs[i].at + HEADER + n, bs[i].len - n - HEADER, true);
      UsedTwo(bs[..i], kept, rest, bs[i + 1..]);
    }
  }

  lemma UsedMerge(bs: seq<Block>, i: nat)
    requires i < |bs|
    ensures Used(MergeNext(bs, i)) == Used(bs)
  {
    if i + 1 < |bs| && bs[i].free && bs[i + 1].free {
      UsedAround(bs[..i], bs[i].(len := bs[i].len + HEADER + bs[i + 1].len), bs[i + 2..]);
      UsedAt(bs, i);
      UsedAt(bs[i + 1..], 0);
      assert bs[i + 1..][..0] == [] && bs[i + 1..][1..] == bs[i + 2..];
    }
  }

  /** What is in use: nothing at boot, more by each grant, and less by each block freed. */
  lemma UsedMeaning(bs: seq<Block>, n: nat, i: nat)
    ensures Used(Fresh()) == 0
    ensures FirstFit(bs, n) < |bs| ==>
      FirstFit(bs, n) < |Malloc(bs, n)| && Used(Malloc(bs, n)) == Used(bs) + Malloc(bs, n)[FirstFit(bs, n)].len
    ensures i < |bs| && !bs[i].free ==> Used(Free(bs, i)) == Used(bs) - bs[i].len
  {
    var f := FirstFit(bs, n);
    if f < |bs| {
      UsedSplit(bs, f, n);
      UsedSetFree(Split(bs, f, n), f, false);
    }
    if i < |bs| && !bs[i].free {
      var marked := SetFree(bs, i, true);
      UsedSetFree(bs, i, true);
      UsedMerge(marked, i);
      var merged := MergeNext(marked, i);
      if 0 < i && merged[i - 1].free {
        UsedMerge(merged, i - 1);
      }
    }
  }

  function LargestFree(bs: seq<Block>): nat {
    if bs == [] then 0
    else
      var rest, b := LargestFree(bs[..|bs| - 1]), bs[|bs| - 1];
      if b.free && rest < b.len then b.len else rest
  }

  function FreeCount(bs: seq<Block>): nat {
    if bs == [] then 0 else FreeCount(bs[..|bs| - 1]) + if bs[|bs| - 1].free then 1 else 0
  }

  lemma {:induction false} LargestFreeBounds(bs: seq<Block>)
    ensures forall b :: b in bs && b.free ==> b.len <= LargestFree(bs)
    ensures 0 < LargestFree(bs) ==> HasFree(bs, LargestFree(bs))
  {
    if bs != [] {
      var init, last := bs[..|bs| - 1], bs[|bs| - 1];
      LargestFreeBounds(init);
      assert bs == init + [last];
      if !(last.free && LargestFree(init) < last.len) && 0 < LargestFree(bs) {
        var b :| b in init && b.free && b.len == LargestFree(init);
        assert b in bs;
      }
    }
  }

  ghost predicate HasFree(bs: seq<Block>, n: nat) {
    exists b :: b in bs && b.free && b.len == n
  }

  /** A positive rounded request is refused exactly when it exceeds the largest free
      block, and otherwise goes to the lowest-addressed block that fits. */
  lemma MallocFailsIff(bs: seq<Block>, n: nat)
    requires 0 < n
    ensures FirstFit(bs, n) == |bs| <==> LargestFree(bs) < n
    ensures FirstFit(bs, n) < |bs| ==> Fits(bs[FirstFit(bs, n)], n)
    ensures forall j :: 0 <= j < FirstFit(bs, n) ==> !Fits(bs[j], n)
  {
    LargestFreeBounds(bs);
    if n <= LargestFree(bs) {
      var b :| b in bs && b.free && b.len == LargestFree(bs);
      var j :| 0 <= j < |bs| && bs[j] == b;
      assert Fits(bs[j], n);
    }
  }

  /** Header overhead and payload together always account for the whole heap. */
  lemma {:induction false} Conserved(bs: seq<Block>)
    requires 0 < |bs| && bs[0].at == 0
    requires forall i, j :: 0 <= i < j < |bs| && j == i + 1 ==> bs[i].End() == bs[j].at
    ensures Total(bs) + HEADER * |bs| == bs[|bs| - 1].End()
  {
    var init := bs[..|bs| - 1];
    if init != [] {
      Conserved(init);
    }
  }

  /** Between two free blocks there is a live one: at most one more free block than live ones. */
  lemma {:induction false} FreeCountBound(bs: seq<Block>)
    requires Coalesced(bs)
    ensures FreeCount(bs) <= |bs| - FreeCount(bs) + 1
    ensures bs != [] && !bs[|bs| - 1].free ==> FreeCount(bs) <= |bs| - FreeCount(bs)
  {
    if bs != [] {
      var init := bs[..|bs| - 1];
      FreeCountBound(init);
    }
  }

  lemma MulMono(a: nat, b: nat, c: nat)
    requires a <= b
    ensures a * c <= b * c && c * a <= c * b
  {
  }

  lemma {:induction false} FreeBytesBound(bs: seq<Block>)
    ensures Used(bs) <= Total(bs)
    ensures Total(bs) - Used(bs) <= LargestFree(bs) * FreeCount(bs)
  {
    if bs != [] {
      var init, last := bs[..|bs| - 1], bs[|bs| - 1];
      FreeBytesBound(init);
      MulMono(LargestFree(init), LargestFree(bs), FreeCount(init));
      if last.free {
        var l, c := LargestFree(bs), FreeCount(init);
        assert l * (c + 1) == l * c + l;
        assert FreeCount(bs) == c + 1;
      } else {
        assert FreeCount(bs) == FreeCount(init);
      }
    }
  }

  lemma Pigeonhole(l: nat, c: nat, n: nat, k: nat)
    requires l < n && c <= k && 0 < k
    ensures l * c < n * k
  {
    MulMono(c, k, l);
    MulMono(l + 1, n, k);
    assert (l + 1) * k == l * k + k;
  }

  /** Fragmentation is bounded: with k blocks live, n * (k + 1) free payload words are
      enough for any request of n words. */
  lemma EnoughFree(bs: seq<Block>, n: nat)
    requires Sound(bs) && 0 < n
    requires n * (|Live(bs)| + 1) <= Total(bs) - Used(bs)
    ensures FirstFit(bs, n) < |bs|
  {
    Bounded(bs);
    LiveCount(bs);
    FreeCountBound(bs);
    FreeBytesBound(bs);
    MallocFailsIff(bs, n);
    if LargestFree(bs) < n {
      Pigeonhole(LargestFree(bs), FreeCount(bs), n, |Live(bs)| + 1);
    }
  }

  lemma LiveMore(init: seq<Block>, last: Block)
    requires last !in init
    ensures |Live(init + [last])| == |Live(init)| + if last.free then 0 else 1
  {
    LiveConcat(init, [last]);
    assert Live([last]) == if last.free then {} else {last};
    assert last !in Live(init);
  }

  /** The blocks that are not free are as many as the live set has members. */
  lemma {:induction false} LiveCount(bs: seq<Block>)
    requires forall i, j :: 0 <= i < j < |bs| ==> bs[i].at < bs[j].at
    ensures |Live(bs)| == |bs| - FreeCount(bs)
  {
    if bs != [] {
      var init, last := bs[..|bs| - 1], bs[|bs| - 1];
      LiveCount(init);
      LiveMore(init, last);
      assert bs == init + [last];
    }
  }

  // ---- 32-bit rounding -----------------------------------------------------

  /** ALIGN_UP rounds a request up by less than 8 bytes exactly when the request is at most
      0xFFFFFFF8; the seven larger ones wrap to zero. */
  lemma AlignUp8Iff(size: Word)
    ensures size <= AlignUp8(size) < size + 8 <==> size <= 0xFFFF_FFF8
    ensures 0xFFFF_FFF8 < size ==> AlignUp8(size) == 0
    ensures 4 * Rounded(size) == AlignUp8(size) && AlignUp8(size) % 8 == 0
  {
    var x := (size + 7) % 0x1_0000_0000;
    assert x == if size <= 0xFFFF_FFF8 then size + 7 else size + 7 - 0x1_0000_0000;
    assert x == 8 * (x / 8) + x % 8;
  }

  /** A granted block holds the bytes asked for exactly when the request did not wrap. */
  lemma GrantCoversIff(bs: seq<Block>, request: Word)
    requires Tiled(bs) && 0 < request && FirstFit(bs, Rounded(request)) < |bs|
    ensures FirstFit(bs, Rounded(request)) < |Malloc(bs, Rounded(request))|
    ensures request <= 4 * Malloc(bs, Rounded(request))[FirstFit(bs, Rounded(request))].len
            <==> request <= 0xFFFF_FFF8
  {
    AlignUp8Iff(request);
    MallocLive(bs, Rounded(request));
  }

  /** On a fresh heap kmalloc(0xFFFFFFFF) is granted a payload of no bytes at all. */
  lemma WrappedRequest()
    ensures Rounded(0xFFFF_FFFF) == 0
    ensures Malloc(Fresh(), 0)[0] == Block(0, 0, false)
  {
    AlignUp8Iff(0xFFFF_FFFF);
    assert Fits(Fresh()[0], 0) && FirstFit(Fresh(), 0) == 0;
  }

  // ---- Whole runs ------------------------------------------------------------

  datatype Op = Alloc(request: Word) | Dealloc(block: Block)

  /** kfree may be called on live blocks only. */
  ghost predicate Legal(bs: seq<Block>, op: Op) {
    op.Dealloc? ==> op.block in Live(bs)
  }

  function Step(bs: seq<Block>, op: Op): seq<Block> {
    match op
    case Alloc(request) => if request == 0 then bs else Malloc(bs, Rounded(request))
    case Dealloc(block) => if block in bs then Free(bs, IndexOf(bs, block)) else bs
  }

  function Run(bs: seq<Block>, ops: seq<Op>): seq<Block>
    decreases |ops|
  {
    if ops == [] then bs else Run(Step(bs, ops[0]), ops[1..])
  }

  ghost predicate LegalRun(bs: seq<Block>, ops: seq<Op>)
    decreases |ops|
  {
    ops != [] ==> Legal(bs, ops[0]) && LegalRun(Step(bs, ops[0]), ops[1..])
  }

  lemma StepSound(bs: seq<Block>, op: Op)
    requires Sound(bs) && Legal(bs, op)
    ensures Sound(Step(bs, op))
    ensures forall b :: b in Live(bs) && op != Dealloc(b) ==> b in Live(Step(bs, op))
  {
    match op
    case Alloc(request) =>
      MallocSound(bs, Rounded(request));
      if FirstFit(bs, Rounded(request)) < |bs| {
        MallocLive(bs, Rounded(request));
      }
    case Dealloc(block) =>
      FreeSound(bs, IndexOf(bs, block));
      FreeLive(bs, IndexOf(bs, block));
  }

  /** Every run keeps the heap tiled and coalesced; a block stays live, at the same place and
      of the same size, until it is freed itself; and once nothing is live any more the
      heap is as it was at boot. */
  lemma {:induction false} RunSound(bs: seq<Block>, ops: seq<Op>)
    requires Sound(bs) && LegalRun(bs, ops)
    ensures Sound(Run(bs, ops))
    ensures forall b :: b in Live(bs) && Dealloc(b) !in ops ==> b in Live(Run(bs, ops))
    ensures Live(Run(bs, ops)) == {} ==> Run(bs, ops) == Fresh()
    decreases |ops|
  {
    if ops == [] {
      if Live(bs) == {} {
        NothingLive(bs);
      }
    } else {
      StepSound(bs, ops[0]);
      RunSound(Step(bs, ops[0]), ops[1..]);
      forall b | b in Live(bs) && Dealloc(b) !in ops ensures b in Live(Run(bs, ops)) {
        assert ops[0] in ops;
      }
    }
  }
}
