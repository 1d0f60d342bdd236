/** mm/kheap.c: the allocator itself, working in place on the 4 MiB of words that
    hold both its block headers and its clients' payloads. */
module Heap {
  import opened Machine
  import opened HeapModel

  const MAGIC: Word := 0x52415054
  const PAGE_SIZE: nat := 4096

  // ---- What the header words mean ------------------------------------------

  function Addr(start: Word, at: nat): int {
    start + 4 * at
  }

  function NextOf(start: Word, bs: seq<Block>, i: nat): int {
    if i + 1 < |bs| then Addr(start, bs[i + 1].at) else 0
  }

  function PrevOf(start: Word, bs: seq<Block>, i: nat): int
    requires i <= |bs|
  {
    if 0 < i then Addr(start, bs[i - 1].at) else 0
  }

  /** The five header words of `b` read: magic, size in bytes, free, next, prev. */
  predicate HeaderIn(m: seq<Word>, b: Block, next: int, prev: int) {
    && b.at + HEADER <= |m|
    && m[b.at] == MAGIC
    && m[b.at + 1] == 4 * b.len
    && m[b.at + 2] == (if b.free then 1 else 0)
    && m[b.at + 3] == next
    && m[b.at + 4] == prev
  }

  /** The header of block `i` is in memory, linked to its two neighbours. */
  ghost predicate BlockSpelled(m: seq<Word>, start: Word, bs: seq<Block>, i: nat)
    requires i < |bs|
  {
    HeaderIn(m, bs[i], NextOf(start, bs, i), PrevOf(start, bs, i))
  }

  /** The memory spells out `bs` as a doubly linked list. */
  ghost predicate Spelled(m: seq<Word>, start: Word, bs: seq<Block>) {
    forall i {:trigger BlockSpelled(m, start, bs, i)} :: 0 <= i < |bs| ==> BlockSpelled(m, start, bs, i)
  }

  /** Every payload word of a block in `live` is the same in both memories. */
  ghost predicate Kept(live: set<Block>, m0: seq<Word>, m1: seq<Word>) {
    |m0| == |m1| &&
    forall b, k :: b in live && b.at + HEADER <= k < b.End() && k < |m0| ==> m0[k] == m1[k]
  }

  ghost predicate SameHeader(m0: seq<Word>, m1: seq<Word>, b: Block) {
    |m0| == |m1| && forall k :: b.at <= k < b.at + HEADER && k < |m0| ==> m0[k] == m1[k]
  }

  /** When blocks i..i+o become `n` blocks and only they and the block after them had
      header words rewritten, the memory spells the new sequence. */
  lemma Respelled(m0: seq<Word>, m1: seq<Word>, start: Word, bs: seq<Block>, after: seq<Block>,
                  i: nat, o: nat, n: nat)
    requires 0 < o && 0 < n && i + o <= |bs| && |after| == |bs| - o + n
    requires Spelled(m0, start, bs)
    requires forall j :: 0 <= j < i ==> after[j] == bs[j]
    requires forall j :: i + n <= j < |after| ==> after[j] == bs[j - n + o]
    requires after[i].at == bs[i].at
    requires forall j | i <= j <= i + n && j < |after| ::
      BlockSpelled(m1, start, after, j)
    requires forall j :: 0 <= j < i || i + o < j < |bs| ==> SameHeader(m0, m1, bs[j])
    ensures Spelled(m1, start, after)
  {
    forall j | 0 <= j < |after|
      ensures BlockSpelled(m1, start, after, j)
    {
      if j < i {
        assert BlockSpelled(m0, start, bs, j);
        assert SameHeader(m0, m1, bs[j]);
      } else if j > i + n {
        var was := j - n + o;
        assert BlockSpelled(m0, start, bs, was);
        assert SameHeader(m0, m1, bs[was]);
      }
    }
  }

  /** Only words of block `i` and header words of block `t` differ. */
  ghost predicate Around(bs: seq<Block>, i: nat, t: nat, m0: seq<Word>, m1: seq<Word>)
    requires i < |bs|
  {
    |m0| == |m1| &&
    forall k :: 0 <= k < |m0| && m0[k] != m1[k] ==> Touched(bs, i, t, k)
  }

  predicate Touched(bs: seq<Block>, i: nat, t: nat, k: int)
    requires i < |bs|
  {
    || bs[i].at <= k < bs[i].End()
    || (t < |bs| && bs[t].at <= k < bs[t].at + HEADER)
  }

  lemma Apart(bs: seq<Block>, i: nat, j: nat)
    requires Tiled(bs) && i < |bs| && j < |bs| && i != j
    ensures bs[i].End() <= bs[j].at || bs[j].End() <= bs[i].at
  {
    if i < j {
      Ordered(bs, i, j);
    } else {
      Ordered(bs, j, i);
    }
  }

  lemma AroundKept(bs: seq<Block>, i: nat, t: nat, m0: seq<Word>, m1: seq<Word>)
    requires Tiled(bs) && i < |bs| && Around(bs, i, t, m0, m1)
    ensures forall j :: 0 <= j < |bs| && j != i && j != t ==> SameHeader(m0, m1, bs[j])
    ensures Kept(Live(bs) - {bs[i]}, m0, m1)
  {
    forall j | 0 <= j < |bs| && j != i && j != t ensures SameHeader(m0, m1, bs[j]) {
      Apart(bs, i, j);
      if t < |bs| {
        Apart(bs, t, j);
      }
    }
    forall b, k | b in Live(bs) - {bs[i]} && b.at + HEADER <= k < b.End() && k < |m0|
      ensures m0[k] == m1[k]
    {
      var j :| 0 <= j < |bs| && bs[j] == b;
      Apart(bs, i, j);
      if t < |bs| && t != j {
        Apart(bs, t, j);
      }
    }
  }

  /** What split writes: the new header, two fields of block `i`, and the back link after it. */
  ghost predicate SplitWords(m0: seq<Word>, m1: seq<Word>, start: Word, bs: seq<Block>, i: nat, n: nat)
    requires i < |bs| && n + HEADER + MIN_SPLIT <= bs[i].len
  {
    var w := bs[i].at;
    var r := w + HEADER + n;
    && |m0| == |m1| == HEAP_WORDS && bs[i].End() <= HEAP_WORDS
    && HeaderIn(m1, Block(r, bs[i].len - n - HEADER, true), NextOf(start, bs, i), Addr(start, w))
    && m1[w + 1] == 4 * n && m1[w + 3] == Addr(start, r)
    && (i + 1 < |bs| ==> bs[i + 1].End() <= HEAP_WORDS && m1[bs[i + 1].at + 4] == Addr(start, r))
    && forall k | 0 <= k < |m0| && k != w + 1 && k != w + 3 && !(r <= k < r + HEADER)
                  && (i + 1 < |bs| ==> k != bs[i + 1].at + 4) :: m0[k] == m1[k]
  }

  lemma SplitFrame(m0: seq<Word>, m1: seq<Word>, start: Word, bs: seq<Block>, i: nat, n: nat)
    requires Tiled(bs) && i < |bs| && n + HEADER + MIN_SPLIT <= bs[i].len && bs[i].free
    requires SplitWords(m0, m1, start, bs, i, n)
    ensures forall j :: 0 <= j < |bs| && j != i && j != i + 1 ==> SameHeader(m0, m1, bs[j])
    ensures Kept(Live(bs), m0, m1)
  {
    assert Around(bs, i, i + 1, m0, m1);
    AroundKept(bs, i, i + 1, m0, m1);
    assert Live(bs) - {bs[i]} == Live(bs);
  }

  /** `after` is `bs` with block `i` cut to `n` words and a free block behind it. */
  ghost predicate CutIn(bs: seq<Block>, after: seq<Block>, i: nat, n: nat) {
    && i < |bs| && n + HEADER + MIN_SPLIT <= bs[i].len && |after| == |bs| + 1
    && after[i] == bs[i].(len := n)
    && after[i + 1] == Block(bs[i].at + HEADER + n, bs[i].len - n - HEADER, true)
    && (forall j :: 0 <= j < i ==> after[j] == bs[j])
    && (forall j :: i + 2 <= j < |after| ==> after[j] == bs[j - 1])
  }

  lemma SplitCutIn(bs: seq<Block>, i: nat, n: nat)
    requires i < |bs| && n + HEADER + MIN_SPLIT <= bs[i].len
    ensures CutIn(bs, Split(bs, i, n), i, n)
  {
    SplitIndex(bs, i, n);
  }

  lemma CutInBlocksSpelled(m0: seq<Word>, m1: seq<Word>, start: Word, bs: seq<Block>, after: seq<Block>, i: nat, n: nat)
    requires CutIn(bs, after, i, n) && bs[i].free
    requires i + 1 < |bs| ==> bs[i].End() == bs[i + 1].at
    requires Spelled(m0, start, bs) && SplitWords(m0, m1, start, bs, i, n)
    ensures BlockSpelled(m1, start, after, i) && BlockSpelled(m1, start, after, i + 1)
    ensures i + 2 < |after| ==> BlockSpelled(m1, start, after, i + 2)
  {
    assert BlockSpelled(m0, start, bs, i);
    if i + 2 < |after| {
      assert BlockSpelled(m0, start, bs, i + 1);
    }
  }

  lemma CutInSpelled(m0: seq<Word>, m1: seq<Word>, start: Word, bs: seq<Block>, after: seq<Block>, i: nat, n: nat)
    requires CutIn(bs, after, i, n) && Tiled(bs) && bs[i].free
    requires Spelled(m0, start, bs) && SplitWords(m0, m1, start, bs, i, n)
    ensures Spelled(m1, start, after)
  {
    SplitFrame(m0, m1, start, bs, i, n);
    CutInBlocksSpelled(m0, m1, start, bs, after, i, n);
    Respelled(m0, m1, start, bs, after, i, 1, 2);
  }

  lemma SplitSpelled(m0: seq<Word>, m1: seq<Word>, start: Word, bs: seq<Block>, i: nat, n: nat)
    requires Tiled(bs) && i < |bs| && n + HEADER + MIN_SPLIT <= bs[i].len && bs[i].free
    requires Spelled(m0, start, bs) && SplitWords(m0, m1, start, bs, i, n)
    ensures Spelled(m1, start, Split(bs, i, n)) && Tiled(Split(bs, i, n)) && Kept(Live(bs), m0, m1)
  {
    SplitCutIn(bs, i, n);
    CutInSpelled(m0, m1, start, bs, Split(bs, i, n), i, n);
    SplitFrame(m0, m1, start, bs, i, n);
    SplitSound(bs, i, n);
  }

  /** What merge_next writes: block `i` swallows its successor, and the block after that
      is linked back to it. */
  ghost predicate MergeWords(m0: seq<Word>, m1: seq<Word>, start: Word, bs: seq<Block>, i: nat)
    requires i + 1 < |bs|
  {
    var w := bs[i].at;
    && |m0| == |m1| == HEAP_WORDS && bs[i].End() <= HEAP_WORDS
    && m1[w + 1] == 4 * (bs[i].len + HEADER + bs[i + 1].len) && m1[w + 3] == NextOf(start, bs, i + 1)
    && (i + 2 < |bs| ==> bs[i + 2].End() <= HEAP_WORDS && m1[bs[i + 2].at + 4] == Addr(start, w))
    && forall k | 0 <= k < |m0| && k != w + 1 && k != w + 3
                  && (i + 2 < |bs| ==> k != bs[i + 2].at + 4) :: m0[k] == m1[k]
  }

  lemma MergeFrame(m0: seq<Word>, m1: seq<Word>, start: Word, bs: seq<Block>, i: nat)
    requires Tiled(bs) && i + 1 < |bs| && bs[i].free
    requires MergeWords(m0, m1, start, bs, i)
    ensures forall j :: 0 <= j < |bs| && j != i && j != i + 2 ==> SameHeader(m0, m1, bs[j])
    ensures Kept(Live(bs), m0, m1)
  {
    assert Around(bs, i, i + 2, m0, m1);
    AroundKept(bs, i, i + 2, m0, m1);
    assert Live(bs) - {bs[i]} == Live(bs);
  }

  /** `after` is `bs` with block i + 1 taken into block i. */
  ghost predicate Fused(bs: seq<Block>, after: seq<Block>, i: nat) {
    && i + 1 < |bs| && |after| == |bs| - 1
    && after[i] == bs[i].(len := bs[i].len + HEADER + bs[i + 1].len)
    && (forall j :: 0 <= j < i ==> after[j] == bs[j])
    && (forall j :: i + 1 <= j < |after| ==> after[j] == bs[j + 1])
  }

  lemma MergeFused(bs: seq<Block>, i: nat)
    requires i + 1 < |bs| && bs[i].free && bs[i + 1].free
    ensures Fused(bs, MergeNext(bs, i), i)
  {
    MergeIndex(bs, i);
  }

  lemma FusedBlocksSpelled(m0: seq<Word>, m1: seq<Word>, start: Word, bs: seq<Block>, after: seq<Block>, i: nat)
    requires Fused(bs, after, i) && bs[i].free && bs[i].End() == bs[i + 1].at
    requires i + 2 < |bs| ==> bs[i + 1].End() == bs[i + 2].at
    requires Spelled(m0, start, bs) && MergeWords(m0, m1, start, bs, i)
    ensures BlockSpelled(m1, start, after, i)
    ensures i + 1 < |after| ==> BlockSpelled(m1, start, after, i + 1)
  {
    assert BlockSpelled(m0, start, bs, i);
    if i + 1 < |after| {
      assert BlockSpelled(m0, start, bs, i + 2);
    }
  }

  lemma FusedSpelled(m0: seq<Word>, m1: seq<Word>, start: Word, bs: seq<Block>, after: seq<Block>, i: nat)
    requires Fused(bs, after, i) && Tiled(bs) && bs[i].free
    requires Spelled(m0, start, bs) && MergeWords(m0, m1, start, bs, i)
    ensures Spelled(m1, start, after)
  {
    MergeFrame(m0, m1, start, bs, i);
    FusedBlocksSpelled(m0, m1, start, bs, after, i);
    Respelled(m0, m1, start, bs, after, i, 2, 1);
  }

  lemma MergeSpelled(m0: seq<Word>, m1: seq<Word>, start: Word, bs: seq<Block>, i: nat)
    requires Tiled(bs) && i + 1 < |bs| && bs[i].free && bs[i + 1].free
    requires Spelled(m0, start, bs) && MergeWords(m0, m1, start, bs, i)
    ensures Spelled(m1, start, MergeNext(bs, i)) && Tiled(MergeNext(bs, i)) && Kept(Live(bs), m0, m1)
  {
    MergeFused(bs, i);
    FusedSpelled(m0, m1, start, bs, MergeNext(bs, i), i);
    MergeFrame(m0, m1, start, bs, i);
    MergeSound(bs, i);
  }

  lemma FlagFrame(m0: seq<Word>, m1: seq<Word>, bs: seq<Block>, i: nat, free: bool)
    requires Tiled(bs) && i < |bs| && bs[i].End() <= |m0|
    requires m1 == m0[bs[i].at + 2 := if free then 1 else 0]
    ensures forall j :: 0 <= j < |bs| && j != i ==> SameHeader(m0, m1, bs[j])
    ensures Kept(Live(bs) - {bs[i]}, m0, m1)
  {
    assert Around(bs, i, |bs|, m0, m1);
    AroundKept(bs, i, |bs|, m0, m1);
  }

  lemma FlagBlocksSpelled(m0: seq<Word>, m1: seq<Word>, start: Word, bs: seq<Block>, i: nat, free: bool)
    requires Tiled(bs) && i < |bs| && Spelled(m0, start, bs) && bs[i].End() <= |m0|
    requires m1 == m0[bs[i].at + 2 := if free then 1 else 0]
    ensures BlockSpelled(m1, start, SetFree(bs, i, free), i)
    ensures i + 1 < |bs| ==> BlockSpelled(m1, start, SetFree(bs, i, free), i + 1)
  {
    assert BlockSpelled(m0, start, bs, i);
    if i + 1 < |bs| {
      assert BlockSpelled(m0, start, bs, i + 1);
    }
  }

  lemma FlagSpelled(m0: seq<Word>, m1: seq<Word>, start: Word, bs: seq<Block>, i: nat, free: bool)
    requires Tiled(bs) && i < |bs| && Spelled(m0, start, bs) && bs[i].End() <= |m0|
    requires m1 == m0[bs[i].at + 2 := if free then 1 else 0]
    ensures Spelled(m1, start, SetFree(bs, i, free)) && Tiled(SetFree(bs, i, free))
    ensures Kept(Live(bs) - {bs[i]}, m0, m1)
  {
    FlagFrame(m0, m1, bs, i, free);
    FlagBlocksSpelled(m0, m1, start, bs, i, free);
    Respelled(m0, m1, start, bs, SetFree(bs, i, free), i, 1, 1);
  }

  /** Block `b` is live, its payload starts at address `p`, and it has room for `n` bytes. */
  ghost predicate Holds(live: set<Block>, start: Word, p: int, n: nat, b: Block) {
    b in live && Addr(start, b.at + HEADER) == p && n <= 4 * b.len
  }

  class Kheap {
    const start: Word        // heap_start, a virtual address
    const mem: array<Word>
    var head: Word           // heap_head
    ghost var blocks: seq<Block>

    function Index(p: Word): int {
      (p - start) / 4
    }

    /** The region is page aligned, 4 MiB long, and fits the address space above address 0. */
    ghost predicate Placed() {
      && 0 < start && start % PAGE_SIZE == 0 && start + 4 * HEAP_WORDS < 0x1_0000_0000
      && mem.Length == HEAP_WORDS
    }

    /** The words of the heap spell out `blocks`, which tile it. */
    ghost predicate Linked()
      reads this, mem
    {
      && Placed()
      && head == start
      && Tiled(blocks)
      && Spelled(mem[..], start, blocks)
    }

    ghost predicate Valid()
      reads this, mem
    {
      Linked() && Coalesced(blocks)
    }

    /** The address kmalloc returns for a block: just past its header. */
    function Payload(b: Block): int {
      Addr(start, b.at + HEADER)
    }

    /** The payload addresses currently handed out. */
    ghost function Ptrs(): set<int>
      reads this
    {
      PtrsOf(Live(blocks))
    }

    ghost function PtrsOf(live: set<Block>): set<int> {
      set b | b in live :: Payload(b)
    }

    lemma PtrsAdd(live: set<Block>, b: Block)
      requires forall x :: x in live ==> x.at != b.at
      ensures PtrsOf(live + {b}) == PtrsOf(live) + {Payload(b)}
      ensures Payload(b) !in PtrsOf(live)
    {
      forall p | p in PtrsOf(live) + {Payload(b)} ensures p in PtrsOf(live + {b}) {
        if p != Payload(b) {
          var x :| x in live && Payload(x) == p;
          assert x in live + {b};
        } else {
          assert b in live + {b};
        }
      }
    }

    /** kheap_init. */
    constructor (kernelEnd: Word)
      requires 0 < kernelEnd
      requires (kernelEnd + 4095) / 4096 * 4096 + 4 * HEAP_WORDS < 0x1_0000_0000
      ensures Valid() && fresh(mem)
      ensures blocks == Fresh() && Ptrs() == {}
      ensures kernelEnd <= start < kernelEnd + 4096 && start % 4096 == 0
    {
      start := (kernelEnd + 4095) / 4096 * 4096;
      head := (kernelEnd + 4095) / 4096 * 4096;
      mem := new Word[HEAP_WORDS];
      blocks := Fresh();
      new;
      WriteHeader(0, 4 * (HEAP_WORDS - HEADER), true, 0, 0, blocks[0]);
      assert BlockSpelled(mem[..], start, blocks, 0);
    }

    /** The five field assignments that make a header. */
    method WriteHeader(w: nat, size: Word, free: bool, next: Word, prev: Word, ghost b: Block)
      requires w + HEADER <= mem.Length && b == Block(w, b.len, free) && size == 4 * b.len
      modifies mem
      ensures HeaderIn(mem[..], b, next, prev)
      ensures forall k :: 0 <= k < mem.Length && !(w <= k < w + HEADER) ==> mem[k] == old(mem[k])
    {
      mem[w] := MAGIC;
      mem[w + 1] := size;
      mem[w + 2] := if free then 1 else 0;
      mem[w + 3] := next;
      mem[w + 4] := prev;
    }

    /** The writes of split: the remainder's header, the back link of the block after it,
        and the two shortened fields of the block at word `w`. */
    method WriteRest(w: nat, r: nat, size: Word, ghost i: nat, ghost n: nat)
      requires Placed() && i < |blocks| && n + HEADER + MIN_SPLIT <= blocks[i].len
      requires w == blocks[i].at && r == w + HEADER + n && size == 4 * n
      requires blocks[i].End() <= HEAP_WORDS && BlockSpelled(mem[..], start, blocks, i)
      requires i + 1 < |blocks| ==> blocks[i].End() == blocks[i + 1].at && blocks[i + 1].End() <= HEAP_WORDS
      modifies mem
      ensures SplitWords(old(mem[..]), mem[..], start, blocks, i, n)
    {
      ghost var cut := Block(r, blocks[i].len - n - HEADER, true);
      var after := mem[w + 3];
      assert after == NextOf(start, blocks, i);
      WriteHeader(r, mem[w + 1] - size - 20, true, after, Addr(start, w), cut);
      assert HeaderIn(mem[..], cut, after, Addr(start, w));
      if after != 0 {
        mem[Index(after) + 4] := Addr(start, r);
      }
      mem[w + 1] := size;
      mem[w + 3] := Addr(start, r);
    }

    /** split: cut block `i` down to `size` bytes when the remainder is worth a block. */
    method Split(b: Word, size: Word, ghost i: nat, ghost n: nat)
      requires Linked() && i < |blocks| && b == Addr(start, blocks[i].at)
      requires size == 4 * n && n <= blocks[i].len && blocks[i].free
      modifies this`blocks, mem
      ensures Linked()
      ensures blocks == HeapModel.Split(old(blocks), i, n)
      ensures Kept(old(Live(blocks)), old(mem[..]), mem[..])
    {
      InHeap(blocks, i);
      HeaderOf(i);
      if i + 1 < |blocks| {
        HeaderOf(i + 1);
      }
      var w := Index(b);
      if mem[w + 1] < size + 20 + 16 {
        return;
      }
      ghost var m0 := mem[..];
      var rest: Word := b + 20 + size;
      var r := Index(rest);
      assert r == w + HEADER + n;
      WriteRest(w, r, size, i, n);
      SplitSpelled(m0, mem[..], start, blocks, i, n);
      blocks := HeapModel.Split(blocks, i, n);
    }

    lemma HeaderOf(i: nat)
      requires Linked() && i < |blocks|
      ensures blocks[i].End() <= HEAP_WORDS
      ensures BlockSpelled(mem[..], start, blocks, i)
      ensures i + 1 < |blocks| ==> blocks[i].End() == blocks[i + 1].at
    {
      InHeap(blocks, i);
    }

    /** The end of kmalloc: cut the fitting block, mark it used, return its payload. */
    method Take(b: Word, size: Word, ghost i: nat, ghost n: nat) returns (p: Word)
      requires Valid() && i < |blocks| && b == Addr(start, blocks[i].at)
      requires size == 4 * n && i == FirstFit(blocks, n)
      modifies this`blocks, mem
      ensures Valid()
      ensures blocks == Malloc(old(blocks), n) && i < |blocks| && !blocks[i].free
      ensures p == Payload(blocks[i])
      ensures n <= blocks[i].len < n + HEADER + MIN_SPLIT
      ensures Live(blocks) == old(Live(blocks)) + {blocks[i]}
      ensures p !in old(Ptrs()) && Ptrs() == old(Ptrs()) + {p}
      ensures Kept(old(Live(blocks)), old(mem[..]), mem[..])
    {
      ghost var was := blocks;
      MallocSound(was, n);
      MallocLive(was, n);
      SplitLive(was, i, n);
      Split(b, size, i, n);
      HeaderOf(i);
      ghost var m1 := mem[..];
      var w := Index(b);
      mem[w + 2] := 0;
      FlagSpelled(m1, mem[..], start, blocks, i, false);
      blocks := SetFree(blocks, i, false);
      PtrsAdd(Live(was), blocks[i]);
      p := b + 20;
    }

    /** kmalloc: hand out the first free block that fits, splitting off what is left. */
    method Kmalloc(request: Word) returns (p: Word)
      requires Valid()
      modifies this`blocks, mem
      ensures Valid()
      ensures request == 0 ==> p == 0
      ensures blocks == Step(old(blocks), Alloc(request))
      ensures request != 0 ==> (p == 0 <==> FirstFit(old(blocks), Rounded(request)) == |old(blocks)|)
      ensures p == 0 ==> blocks == old(blocks) && mem[..] == old(mem[..])
      ensures p != 0 ==>
        var i := FirstFit(old(blocks), Rounded(request));
        && blocks == Malloc(old(blocks), Rounded(request)) && i < |blocks|
        && p == Payload(blocks[i]) && !blocks[i].free
        && AlignUp8(request) <= 4 * blocks[i].len < AlignUp8(request) + 36
        && Live(blocks) == old(Live(blocks)) + {blocks[i]}
      ensures p != 0 ==> p !in old(Ptrs()) && Ptrs() == old(Ptrs()) + {p}
      ensures p != 0 && request <= 0xFFFF_FFF8 ==> exists b :: Holds(Live(blocks), start, p, request, b)
      ensures Kept(old(Live(blocks)), old(mem[..]), mem[..])
    {
      if request == 0 {
        return 0;
      }
      ghost var was, m0 := blocks, mem[..];
      var size: Word := AlignUp8(request);
      ghost var n := Rounded(request);
      AlignUp8Iff(request);
      ghost var i := 0;
      var b := head;
      while b != 0
        invariant i <= |blocks| && blocks == was && mem[..] == m0 && Valid()
        invariant b == if i < |blocks| then Addr(start, blocks[i].at) else 0
        invariant forall j :: 0 <= j < i ==> !Fits(blocks[j], n)
        decreases |blocks| - i
      {
        HeaderOf(i);
        var w := Index(b);
        assert mem[w] == MAGIC;  // the corruption panic cannot be reached
        if mem[w + 2] != 0 && mem[w + 1] >= size {
          assert i == FirstFit(blocks, n);
          p := Take(b, size, i, n);
          assert request <= 0xFFFF_FFF8 ==> Holds(Live(blocks), start, p, request, blocks[i]);
          return;
        }
        b := mem[w + 3];
        i := i + 1;
      }
      return 0;
    }

    /** A client writes word `k`, which lies in the payload of `g`. */
    method Store(k: nat, v: Word, ghost g: Block)
      requires Valid() && g in Live(blocks) && g.at + HEADER <= k < g.End()
      modifies mem
      ensures Valid() && k < mem.Length && mem[..] == old(mem[..])[k := v]
      ensures Kept(Live(blocks) - {g}, old(mem[..]), mem[..])
    {
      ghost var m0 := mem[..];
      ghost var i := IndexOf(blocks, g);
      InHeap(blocks, i);
      mem[k] := v;
      PayloadWritten(m0, mem[..], start, blocks, i);
    }

    /** A store through a payload pointer: byte `k` of block `g`. */
    method StoreByte(p: Word, k: nat, v: Byte, ghost g: Block)
      requires Valid() && g in Live(blocks) && p == Payload(g) && k < 4 * g.len
      modifies mem
      ensures Valid()
      ensures Readable(mem[..], Index(p), 4 * g.len)
      ensures forall j :: 0 <= j < 4 * g.len ==>
        ByteIn(mem[..], Index(p), j) == if j == k then v else ByteIn(old(mem[..]), Index(p), j)
      ensures Kept(Live(blocks) - {g}, old(mem[..]), mem[..])
    {
      ghost var m0 := mem[..];
      InHeap(blocks, IndexOf(blocks, g));
      var w := Index(p);
      assert w == g.at + HEADER;
      Store(w + k / 4, WithByte(mem[w + k / 4], k % 4, v), g);
      ByteStored(m0, w, 4 * g.len, k, v);
    }

    method LoadByte(p: Word, k: nat, ghost g: Block) returns (v: Byte)
      requires Valid() && g in Live(blocks) && p == Payload(g) && k < 4 * g.len
      ensures Readable(mem[..], Index(p), 4 * g.len) && v == ByteIn(mem[..], Index(p), k)
    {
      InHeap(blocks, IndexOf(blocks, g));
      v := ByteOf(mem[Index(p) + k / 4], k % 4);
    }

    /** memset(p, 0, size) on the payload of `g`. */
    method Clear(p: Word, size: nat, ghost g: Block)
      requires Valid() && g in Live(blocks) && p == Payload(g) && size <= 4 * g.len
      modifies mem
      ensures Valid() && Readable(mem[..], Index(p), size)
      ensures forall k :: 0 <= k < size ==> ByteIn(mem[..], Index(p), k) == 0
      ensures Kept(Live(blocks) - {g}, old(mem[..]), mem[..])
    {
      InHeap(blocks, IndexOf(blocks, g));
      var k := 0;
      while k < size
        invariant k <= size && Valid()
        invariant forall j :: 0 <= j < k ==> ByteIn(mem[..], Index(p), j) == 0
        invariant Kept(Live(blocks) - {g}, old(mem[..]), mem[..])
      {
        StoreByte(p, k, 0, g);
        k := k + 1;
      }
    }

    /** kzalloc. The caller's size must not wrap when rounded up, or memset would overrun. */
    method Kzalloc(request: Word) returns (p: Word)
      requires Valid() && request <= 0xFFFF_FFF8
      modifies this`blocks, mem
      ensures Valid()
      ensures request == 0 ==> p == 0
      ensures request != 0 ==> (p == 0 <==> FirstFit(old(blocks), Rounded(request)) == |old(blocks)|)
      ensures p == 0 ==> blocks == old(blocks) && mem[..] == old(mem[..])
      ensures old(Live(blocks)) <= Live(blocks)
      ensures p != 0 ==> exists b :: Holds(Live(blocks), start, p, request, b)
      ensures p != 0 ==>
        && blocks == Malloc(old(blocks), Rounded(request))
        && p !in old(Ptrs()) && Ptrs() == old(Ptrs()) + {p}
        && Readable(mem[..], Index(p), request)
        && (forall k :: 0 <= k < request ==> ByteIn(mem[..], Index(p), k) == 0)
      ensures Kept(old(Live(blocks)), old(mem[..]), mem[..])
    {
      p := Kmalloc(request);
      if p != 0 {
        AlignUp8Iff(request);
        ghost var g := blocks[FirstFit(old(blocks), Rounded(request))];
        ghost var m1 := mem[..];
        assert g !in old(Live(blocks)) by {
          assert Payload(g) !in old(Ptrs());
        }
        Clear(p, request, g);
        KeptTrans(old(Live(blocks)), old(mem[..]), m1, mem[..], g);
      }
    }

    /** The writes of merge_next when both blocks are free. */
    method WriteMerged(w: nat, n: nat, ghost i: nat)
      requires Placed() && i + 1 < |blocks| && w == blocks[i].at && n == blocks[i + 1].at
      requires blocks[i].End() == n && blocks[i + 1].End() <= HEAP_WORDS
      requires BlockSpelled(mem[..], start, blocks, i) && BlockSpelled(mem[..], start, blocks, i + 1)
      requires i + 2 < |blocks| ==> blocks[i + 1].End() == blocks[i + 2].at && blocks[i + 2].End() <= HEAP_WORDS
      modifies mem
      ensures MergeWords(old(mem[..]), mem[..], start, blocks, i)
    {
      mem[w + 1] := mem[w + 1] + 20 + mem[n + 1];
      mem[w + 3] := mem[n + 3];
      if mem[w + 3] != 0 {
        mem[Index(mem[w + 3]) + 4] := Addr(start, w);
      }
    }

    /** merge_next: let block `i` swallow its successor if both are free. */
    method MergeNext(b: Word, ghost i: nat)
      requires Linked() && i < |blocks| && b == Addr(start, blocks[i].at)
      modifies this`blocks, mem
      ensures Linked()
      ensures blocks == HeapModel.MergeNext(old(blocks), i)
      ensures Live(blocks) == old(Live(blocks))
      ensures Kept(Live(blocks), old(mem[..]), mem[..])
    {
      MergeTest(b, i);
      var w := Index(b);
      var n := Index(mem[w + 3]);
      if mem[w + 3] == 0 || mem[w + 2] == 0 || mem[n + 2] == 0 {
        return;
      }
      Swallow(w, n, i);
    }

    /** merge_next past its checks: both blocks are free. */
    method Swallow(w: nat, n: nat, ghost i: nat)
      requires Linked() && i + 1 < |blocks| && blocks[i].free && blocks[i + 1].free
      requires w == blocks[i].at && n == blocks[i + 1].at
      modifies this`blocks, mem
      ensures Linked()
      ensures blocks == HeapModel.MergeNext(old(blocks), i)
      ensures Live(blocks) == old(Live(blocks))
      ensures Kept(Live(blocks), old(mem[..]), mem[..])
    {
      ghost var m0 := mem[..];
      LinksOf(i);
      LinksOf(i + 1);
      if i + 2 < |blocks| {
        HeaderOf(i + 2);
      }
      WriteMerged(w, n, i);
      MergeSpelled(m0, mem[..], start, blocks, i);
      MergeLive(blocks, i);
      blocks := HeapModel.MergeNext(blocks, i);
    }

    /** Following the next pointer of block `i` leads to block `i + 1`, or is NULL at the end. */
    lemma LinksOf(i: nat)
      requires Linked() && i < |blocks|
      ensures blocks[i].End() <= HEAP_WORDS && BlockSpelled(mem[..], start, blocks, i)
      ensures (mem[blocks[i].at + 3] == 0) == (i + 1 == |blocks|)
      ensures (mem[blocks[i].at + 2] == 0) == !blocks[i].free
      ensures i + 1 < |blocks| ==>
        && Index(mem[blocks[i].at + 3]) == blocks[i + 1].at == blocks[i].End()
        && blocks[i + 1].End() <= HEAP_WORDS && BlockSpelled(mem[..], start, blocks, i + 1)
        && (mem[blocks[i + 1].at + 2] == 0) == !blocks[i + 1].free
    {
      HeaderOf(i);
      if i + 1 < |blocks| {
        HeaderOf(i + 1);
      }
    }

    /** What the test of merge_next reads: whether both blocks are there and free. */
    lemma MergeTest(b: Word, i: nat)
      requires Linked() && i < |blocks| && b == Addr(start, blocks[i].at)
      ensures var w := Index(b);
        && w == blocks[i].at && w + HEADER <= mem.Length
        && (mem[w + 3] == 0 <==> i + 1 == |blocks|) && (mem[w + 2] == 0 <==> !blocks[i].free)
        && (i + 1 < |blocks| ==>
              var n := Index(mem[w + 3]);
              && n == blocks[i + 1].at && n + HEADER <= mem.Length
              && (mem[n + 2] == 0 <==> !blocks[i + 1].free))
    {
      LinksOf(i);
    }

    /** What the end of kfree reads: whether there is a previous block, and whether it is free. */
    lemma PrevTest(b: Word, i: nat)
      requires Linked() && i < |blocks| && b == Addr(start, blocks[i].at)
      ensures Index(b) + HEADER <= mem.Length && (mem[Index(b) + 4] == 0 <==> i == 0)
      ensures 0 < i ==>
        && mem[Index(b) + 4] == Addr(start, blocks[i - 1].at)
        && Index(mem[Index(b) + 4]) + HEADER <= mem.Length
        && (mem[Index(mem[Index(b) + 4]) + 2] == 0 <==> !blocks[i - 1].free)
    {
      HeaderOf(i);
      if 0 < i {
        HeaderOf(i - 1);
      }
    }

    /** The end of kfree: let the previous block swallow block `i` if it is free too. */
    method MergePrev(b: Word, ghost i: nat)
      requires Linked() && i < |blocks| && b == Addr(start, blocks[i].at)
      modifies this`blocks, mem
      ensures Linked()
      ensures blocks == if 0 < i && old(blocks)[i - 1].free
                        then HeapModel.MergeNext(old(blocks), i - 1) else old(blocks)
      ensures Live(blocks) == old(Live(blocks))
      ensures Kept(Live(blocks), old(mem[..]), mem[..])
    {
      PrevTest(b, i);
      var prev := mem[Index(b) + 4];
      if prev != 0 && mem[Index(prev) + 2] != 0 {
        MergeNext(prev, i - 1);
      }
    }

    /** Setting the free flag of live block `i`. */
    method MarkFree(w: nat, ghost i: nat)
      requires Linked() && i < |blocks| && !blocks[i].free && w == blocks[i].at
      modifies this`blocks, mem
      ensures Linked()
      ensures blocks == SetFree(old(blocks), i, true)
      ensures Live(blocks) == old(Live(blocks)) - {old(blocks)[i]}
      ensures Kept(Live(blocks), old(mem[..]), mem[..])
    {
      ghost var m0 := mem[..];
      HeaderOf(i);
      mem[w + 2] := 1;
      FlagSpelled(m0, mem[..], start, blocks, i, true);
      SetFreeLive(blocks, i);
      blocks := SetFree(blocks, i, true);
    }

    /** kfree past its checks: the header at `b` belongs to live block `i`. */
    method Release(b: Word, ghost i: nat)
      requires Valid() && i < |blocks| && !blocks[i].free && b == Addr(start, blocks[i].at)
      modifies this`blocks, mem
      ensures Valid()
      ensures blocks == Free(old(blocks), i)
      ensures Live(blocks) == old(Live(blocks)) - {old(blocks)[i]}
      ensures Kept(Live(blocks), old(mem[..]), mem[..])
    {
      FreeSound(blocks, i);
      MarkFree(Index(b), i);
      MergePrefix(blocks, i);
      MergeNext(b, i);
      MergePrev(b, i);
    }

    /** The live block whose payload is at `p`. */
    ghost function BlockAt(p: int): (b: Block)
      requires p in Ptrs()
      reads this
      ensures b in Live(blocks) && Payload(b) == p
    {
      var b :| b in Live(blocks) && Payload(b) == p;
      b
    }

    /** kfree: mark the block free, then merge it with the next and the previous one. */
    method Kfree(p: Word)
      requires Valid() && (p == 0 || p in Ptrs())
      modifies this`blocks, mem
      ensures Valid()
      ensures p == 0 ==> blocks == old(blocks) && mem[..] == old(mem[..])
      ensures p != 0 ==>
        && old(Legal(blocks, Dealloc(BlockAt(p)))) && blocks == Step(old(blocks), Dealloc(old(BlockAt(p))))
        && blocks == Free(old(blocks), IndexOf(old(blocks), old(BlockAt(p))))
        && Live(blocks) == old(Live(blocks)) - {old(BlockAt(p))}
      ensures Ptrs() == old(Ptrs()) - {p}
      ensures Kept(Live(blocks), old(mem[..]), mem[..])
    {
      if p == 0 {
        ZeroNoPtr();
        return;
      }
      ghost var was := blocks;
      ghost var g := BlockAt(p);
      ghost var i := IndexOf(blocks, g);
      HeaderOf(i);
      var b: Word := p - 20;
      var w := Index(b);
      assert mem[w] == MAGIC && mem[w + 2] == 0;  // neither panic can be reached
      PtrsRemove(was, g);
      Release(b, i);
    }

    /** A live block lies inside the heap. */
    lemma GrantFits(b: Block)
      requires Valid() && b in Live(blocks)
      ensures b.End() <= mem.Length
    {
      InHeap(blocks, IndexOf(blocks, b));
    }

    lemma ZeroNoPtr()
      requires Placed()
      ensures 0 !in Ptrs()
    {
    }

    lemma PtrsRemove(bs: seq<Block>, b: Block)
      requires Tiled(bs) && b in Live(bs)
      ensures PtrsOf(Live(bs) - {b}) == PtrsOf(Live(bs)) - {Payload(b)}
    {
      forall x | x in Live(bs) && x != b ensures Payload(x) != Payload(b) {
        Disjoint(bs, x, b);
      }
      forall p | p in PtrsOf(Live(bs)) - {Payload(b)} ensures p in PtrsOf(Live(bs) - {b}) {
        var x :| x in Live(bs) && Payload(x) == p;
        assert x in Live(bs) - {b};
      }
    }

    /** kheap_stats: payload totals in bytes, and the largest free payload. */
    method Stats() returns (total: nat, used: nat, largestFree: nat)
      requires Valid()
      ensures total == 4 * Total(blocks) && used == 4 * Used(blocks) && largestFree == 4 * LargestFree(blocks)
      ensures total + 20 * |blocks| == 0x40_0000
    {
      total, used, largestFree := 0, 0, 0;
      ghost var i := 0;
      var b := head;
      while b != 0
        invariant i <= |blocks|
        invariant b == if i < |blocks| then Addr(start, blocks[i].at) else 0
        invariant total == 4 * Total(blocks[..i]) && used == 4 * Used(blocks[..i])
        invariant largestFree == 4 * LargestFree(blocks[..i])
        decreases |blocks| - i
      {
        HeaderOf(i);
        assert blocks[..i + 1][..i] == blocks[..i];
        var w := Index(b);
        total := total + mem[w + 1];
        if mem[w + 2] == 0 {
          used := used + mem[w + 1];
        } else if mem[w + 1] > largestFree {
          largestFree := mem[w + 1];
        }
        b := mem[w + 3];
        i := i + 1;
      }
      assert blocks[..i] == blocks;
      Conserved(blocks);
    }
  }

  lemma KeptTrans(live: set<Block>, m0: seq<Word>, m1: seq<Word>, m2: seq<Word>, g: Block)
    requires Kept(live, m0, m1) && Kept(live + {g} - {g}, m1, m2) && g !in live
    ensures Kept(live, m0, m2)
  {
    assert live + {g} - {g} == live;
  }

  // ---- Bytes of a payload ----------------------------------------------------

  /** The weight of byte `bytes` (0 to 3) in a little-endian word. */
  function Scale(bytes: nat): nat {
    if bytes == 0 then 1 else if bytes == 1 then 0x100 else if bytes == 2 then 0x1_0000 else 0x100_0000
  }

  /** Writing inside one live payload disturbs neither headers nor other payloads. */
  lemma PayloadWritten(m0: seq<Word>, m1: seq<Word>, start: Word, bs: seq<Block>, i: nat)
    requires Tiled(bs) && i < |bs| && Spelled(m0, start, bs) && |m0| == |m1|
    requires forall k :: 0 <= k < |m0| && !(bs[i].at + HEADER <= k < bs[i].End()) ==> m0[k] == m1[k]
    ensures Spelled(m1, start, bs) && Kept(Live(bs) - {bs[i]}, m0, m1)
  {
    assert Around(bs, i, |bs|, m0, m1);
    AroundKept(bs, i, |bs|, m0, m1);
    forall j | 0 <= j < |bs| ensures BlockSpelled(m1, start, bs, j) {
      assert BlockSpelled(m0, start, bs, j);
      assert j != i ==> SameHeader(m0, m1, bs[j]);
    }
  }

  function ByteOf(v: Word, r: nat): Byte
    requires r < 4
  {
    v / Scale(r) % 0x100
  }

  /** The word whose bytes are b0, b1, b2, b3, least significant first. */
  function Word32(b0: Byte, b1: Byte, b2: Byte, b3: Byte): (v: Word)
    ensures ByteOf(v, 0) == b0 && ByteOf(v, 1) == b1 && ByteOf(v, 2) == b2 && ByteOf(v, 3) == b3
  {
    var v := b0 + 0x100 * b1 + 0x1_0000 * b2 + 0x100_0000 * b3;
    assert v / 0x100 == b1 + 0x100 * b2 + 0x1_0000 * b3;
    assert v / 0x1_0000 == b2 + 0x100 * b3;
    v
  }

  /** `v` with byte `r` overwritten. */
  function WithByte(v: Word, r: nat, b: Byte): (v': Word)
    requires r < 4
    ensures forall q :: 0 <= q < 4 ==> ByteOf(v', q) == if q == r then b else ByteOf(v, q)
  {
    Word32(if r == 0 then b else ByteOf(v, 0), if r == 1 then b else ByteOf(v, 1),
           if r == 2 then b else ByteOf(v, 2), if r == 3 then b else ByteOf(v, 3))
  }

  /** `n` bytes from word `w` on lie inside the memory. */
  predicate Readable(m: seq<Word>, w: int, n: nat) {
    0 <= w && w + (n + 3) / 4 <= |m|
  }

  /** Byte `k` of the payload that starts at word `w`. */
  function ByteIn(m: seq<Word>, w: nat, k: nat): Byte
    requires Readable(m, w, k + 1)
  {
    ByteOf(m[w + k / 4], k % 4)
  }

  lemma ByteStored(m: seq<Word>, w: int, n: nat, k: nat, v: Byte)
    requires Readable(m, w, n) && k < n
    ensures var m' := m[w + k / 4 := WithByte(m[w + k / 4], k % 4, v)];
      && Readable(m', w, n)
      && forall j :: 0 <= j < n ==> ByteIn(m', w, j) == if j == k then v else ByteIn(m, w, j)
  {
    var m' := m[w + k / 4 := WithByte(m[w + k / 4], k % 4, v)];
    forall j | 0 <= j < n ensures ByteIn(m', w, j) == if j == k then v else ByteIn(m, w, j) {
      if j / 4 == k / 4 {
        assert m'[w + j / 4] == WithByte(m[w + k / 4], k % 4, v);
        SameByte(j, k);
      }
    }
  }

  lemma SameByte(j: nat, k: nat)
    requires j / 4 == k / 4
    ensures j % 4 == k % 4 <==> j == k
  {
  }
}
