/** What the blocks of the kernel heap hold for the filesystem: one node struct each, or the bytes
    of one file; and the heap calls of fs/ramfs.c with what they leave of the rest. */
module FsHeap {
  import opened Machine
  import opened Paths
  import opened TreeModel
  import opened TreeOps
  import opened TreeOwn
  import F = FileModel
  import HM = HeapModel
  import H = Heap

  const NODE_SIZE: Word := 60  // sizeof(struct ramfs_node) on i386

  // ---- What the heap holds for a node ---------------------------------------------

  /** A file's bytes are the first bytes of its buffer. */
  ghost predicate Stored(live: set<HM.Block>, m: seq<Word>, start: Word, r: Rec) {
    r.data != 0 ==> exists b :: H.Holds(live, start, r.data, r.cap, b) && BufferIs(m, b, r.bytes)
  }

  ghost predicate BufferIs(m: seq<Word>, b: HM.Block, bytes: seq<Byte>) {
    && b.End() <= |m| && |bytes| <= 4 * b.len
    && forall k :: 0 <= k < |bytes| ==> bytes[k] == H.ByteIn(m, b.at + HM.HEADER, k)
  }

  lemma BufferKept(live: set<HM.Block>, m0: seq<Word>, m1: seq<Word>, b: HM.Block, bytes: seq<Byte>)
    requires BufferIs(m0, b, bytes) && b in live && H.Kept(live, m0, m1)
    ensures BufferIs(m1, b, bytes)
  {
    forall k | 0 <= k < |bytes| ensures bytes[k] == H.ByteIn(m1, b.at + HM.HEADER, k) {
      assert m0[b.at + HM.HEADER + k / 4] == m1[b.at + HM.HEADER + k / 4];
    }
  }

  /** Heap calls that keep a file's buffer live keep its contents. */
  lemma StoredKept(live0: set<HM.Block>, live1: set<HM.Block>, m0: seq<Word>, m1: seq<Word>, start: Word, r: Rec)
    requires Stored(live0, m0, start, r) && H.Kept(live0 * live1, m0, m1)
    requires r.data != 0 ==> forall b :: b in live0 && H.Addr(start, b.at + HM.HEADER) == r.data ==> b in live1
    ensures Stored(live1, m1, start, r)
  {
    if r.data != 0 {
      var b :| H.Holds(live0, start, r.data, r.cap, b) && BufferIs(m0, b, r.bytes);
      BufferKept(live0 * live1, m0, m1, b, r.bytes);
      assert H.Holds(live1, start, r.data, r.cap, b);
    }
  }

  /** Some live block at address `a` is large enough for a node. */
  ghost predicate NodeHeld(live: set<HM.Block>, start: Word, a: Addr) {
    exists b :: H.Holds(live, start, a, NODE_SIZE, b)
  }

  /** The heap holds every node and every file's contents. */
  ghost predicate AllHeld(t: Tree, live: set<HM.Block>, m: seq<Word>, start: Word) {
    && (forall a {:trigger NodeHeld(live, start, a)} :: a in t ==> NodeHeld(live, start, a))
    && (forall a {:trigger Stored(live, m, start, t[a])} :: a in t ==> Stored(live, m, start, t[a]))
  }

  /** Heap calls that free none of a tree's blocks keep all it stores. */
  lemma AllHeldKept(t: Tree, live0: set<HM.Block>, live1: set<HM.Block>, m0: seq<Word>, m1: seq<Word>, start: Word)
    requires AllHeld(t, live0, m0, start) && H.Kept(live0 * live1, m0, m1)
    requires forall b :: b in live0 && H.Addr(start, b.at + HM.HEADER) in Owned(t) ==> b in live1
    ensures AllHeld(t, live1, m1, start)
  {
    forall a | a in t ensures NodeHeld(live1, start, a) && Stored(live1, m1, start, t[a]) {
      assert NodeHeld(live0, start, a) && Stored(live0, m0, start, t[a]);
      var b :| H.Holds(live0, start, a, NODE_SIZE, b);
      assert H.Holds(live1, start, a, NODE_SIZE, b);
      assert t[a].data != 0 ==> t[a].data in Owned(t);
      StoredKept(live0, live1, m0, m1, start, t[a]);
    }
  }

  /** The heap has no free block for a request of this many bytes. */
  ghost predicate Refuses(bs: seq<HM.Block>, request: Word) {
    HM.FirstFit(bs, HM.Rounded(request)) == |bs|
  }

  /** That is: when every free block is shorter than the request rounded up to 8 bytes. */
  lemma RefusesIff(bs: seq<HM.Block>, request: Word)
    requires 0 < request <= 0xFFFF_FFF8
    ensures Refuses(bs, request) <==> forall b :: b in bs && b.free ==> 4 * b.len < (request + 7) / 8 * 8
  {
    var n, k := HM.Rounded(request), HM.FirstFit(bs, HM.Rounded(request));
    assert 4 * n == (request + 7) / 8 * 8;
    if k == |bs| {
      forall b | b in bs && b.free ensures b.len < n {
        var j :| 0 <= j < |bs| && bs[j] == b;
        assert !HM.Fits(bs[j], n);
      }
    } else {
      assert HM.Fits(bs[k], n) && bs[k] in bs;
    }
  }

  /** kmalloc as its clients see it: a new address, or NULL exactly when the heap is full. */
  method Allocate(heap: H.Kheap, request: Word) returns (p: Word)
    requires heap.Valid() && 0 < request <= 0xFFFF_FFF8
    modifies heap`blocks, heap.mem
    ensures heap.Valid()
    ensures p == 0 <==> old(Refuses(heap.blocks, request))
    ensures p == 0 ==> heap.blocks == old(heap.blocks)
    ensures heap.Ptrs() == old(heap.Ptrs()) + (if p == 0 then {} else {p}) && p !in old(heap.Ptrs())
    ensures old(HM.Live(heap.blocks)) * HM.Live(heap.blocks) == old(HM.Live(heap.blocks))
    ensures p != 0 ==> exists b :: H.Holds(HM.Live(heap.blocks), heap.start, p, request, b)
    ensures H.Kept(old(HM.Live(heap.blocks)), old(heap.mem[..]), heap.mem[..])
  {
    heap.ZeroNoPtr();
    p := heap.Kmalloc(request);
    if p != 0 {
      assert old(HM.Live(heap.blocks)) <= HM.Live(heap.blocks);
    }
  }

  /** kzalloc, likewise. */
  method AllocateZeroed(heap: H.Kheap, request: Word) returns (p: Word)
    requires heap.Valid() && 0 < request <= 0xFFFF_FFF8
    modifies heap`blocks, heap.mem
    ensures heap.Valid()
    ensures p == 0 <==> old(Refuses(heap.blocks, request))
    ensures p == 0 ==> heap.blocks == old(heap.blocks)
    ensures heap.Ptrs() == old(heap.Ptrs()) + (if p == 0 then {} else {p}) && p !in old(heap.Ptrs())
    ensures old(HM.Live(heap.blocks)) * HM.Live(heap.blocks) == old(HM.Live(heap.blocks))
    ensures p != 0 ==> exists b :: H.Holds(HM.Live(heap.blocks), heap.start, p, request, b)
    ensures H.Kept(old(HM.Live(heap.blocks)), old(heap.mem[..]), heap.mem[..])
  {
    heap.ZeroNoPtr();
    p := heap.Kzalloc(request);
    assert old(HM.Live(heap.blocks)) <= HM.Live(heap.blocks);
  }

  /** kfree, likewise. */
  method Release(heap: H.Kheap, p: Word)
    requires heap.Valid() && (p == 0 || p in heap.Ptrs())
    modifies heap`blocks, heap.mem
    ensures heap.Valid()
    ensures heap.Ptrs() == old(heap.Ptrs()) - {p}
    ensures FreedOnly(old(HM.Live(heap.blocks)), old(heap.mem[..]), HM.Live(heap.blocks), heap.mem[..], heap.start, {p})
  {
    heap.Kfree(p);
  }

  // ---- File buffers -----------------------------------------------------------------

  /** One more byte behind those already in a buffer. */
  method PutByte(heap: H.Kheap, p: Word, ghost before: seq<Byte>, k: nat, v: Byte, ghost g: HM.Block)
    requires heap.Valid() && k == |before|
    requires H.Holds(HM.Live(heap.blocks), heap.start, p, k + 1, g) && BufferIs(heap.mem[..], g, before)
    modifies heap.mem
    ensures heap.Valid() && BufferIs(heap.mem[..], g, before + [v])
    ensures H.Kept(HM.Live(heap.blocks) - {g}, old(heap.mem[..]), heap.mem[..])
  {
    heap.StoreByte(p, k, v, g);
    assert heap.Index(p) == g.at + HM.HEADER;
  }

  /** One byte of the copy. */
  method CopyByte(heap: H.Kheap, dst: Word, src: Word, ghost bytes: seq<Byte>, k: nat,
                  ghost g: HM.Block, ghost s: HM.Block)
    requires heap.Valid() && k < |bytes|
    requires H.Holds(HM.Live(heap.blocks), heap.start, dst, k + 1, g)
    requires H.Holds(HM.Live(heap.blocks), heap.start, src, |bytes|, s)
    requires BufferIs(heap.mem[..], s, bytes) && BufferIs(heap.mem[..], g, bytes[..k])
    modifies heap.mem
    ensures heap.Valid() && BufferIs(heap.mem[..], g, bytes[..k + 1])
    ensures H.Kept(HM.Live(heap.blocks) - {g}, old(heap.mem[..]), heap.mem[..])
  {
    var v := heap.LoadByte(src, k, s);
    assert heap.Index(src) == s.at + HM.HEADER && v == bytes[k];
    PutByte(heap, dst, bytes[..k], k, v, g);
    assert bytes[..k] + [v] == bytes[..k + 1];
  }

  /** memcpy between two different live payloads; `copied` counts the bytes it writes. */
  method CopyBuffer(heap: H.Kheap, dst: Word, src: Word, ghost bytes: seq<Byte>, n: nat,
                    ghost g: HM.Block, ghost s: HM.Block) returns (ghost copied: nat)
    requires heap.Valid() && n == |bytes| && g != s
    requires H.Holds(HM.Live(heap.blocks), heap.start, dst, n, g)
    requires H.Holds(HM.Live(heap.blocks), heap.start, src, n, s)
    requires BufferIs(heap.mem[..], s, bytes) && g.End() <= |heap.mem[..]|
    modifies heap.mem
    ensures heap.Valid() && BufferIs(heap.mem[..], g, bytes)
    ensures H.Kept(HM.Live(heap.blocks) - {g}, old(heap.mem[..]), heap.mem[..])
    ensures copied == n
  {
    var k := 0;
    copied := 0;
    while k < n
      invariant k == copied <= n && heap.Valid() && BufferIs(heap.mem[..], g, bytes[..k])
      invariant H.Kept(HM.Live(heap.blocks) - {g}, old(heap.mem[..]), heap.mem[..])
    {
      BufferKept(HM.Live(heap.blocks) - {g}, old(heap.mem[..]), heap.mem[..], s, bytes);
      CopyByte(heap, dst, src, bytes, k, g, s);
      k, copied := k + 1, copied + 1;
    }
    assert bytes[..n] == bytes;
  }

  /** memcpy of client data into a live payload, behind the bytes already there. */
  method Append(heap: H.Kheap, p: Word, ghost before: seq<Byte>, off: nat, data: seq<Byte>, ghost g: HM.Block)
    requires heap.Valid() && off == |before|
    requires H.Holds(HM.Live(heap.blocks), heap.start, p, off + |data|, g) && BufferIs(heap.mem[..], g, before)
    modifies heap.mem
    ensures heap.Valid() && BufferIs(heap.mem[..], g, before + data)
    ensures H.Kept(HM.Live(heap.blocks) - {g}, old(heap.mem[..]), heap.mem[..])
  {
    var k := 0;
    assert before + data[..0] == before;
    while k < |data|
      invariant k <= |data| && heap.Valid() && BufferIs(heap.mem[..], g, before + data[..k])
      invariant H.Kept(HM.Live(heap.blocks) - {g}, old(heap.mem[..]), heap.mem[..])
    {
      PutByte(heap, p, before + data[..k], off + k, data[k], g);
      assert before + data[..k] + [data[k]] == before + data[..k + 1];
      k := k + 1;
    }
    assert data[..k] == data;
  }

  /** Heap calls that touch no block but those at `freed` and `written`. */
  ghost predicate OthersKept(live0: set<HM.Block>, m0: seq<Word>, live1: set<HM.Block>, m1: seq<Word>,
                             start: Word, freed: Addr, written: Addr) {
    && |m0| == |m1|
    && (forall b :: b in live0 && H.Addr(start, b.at + HM.HEADER) != freed ==> b in live1)
    && (forall b, k | b in live0 && b in live1 && H.Addr(start, b.at + HM.HEADER) != written
                      && b.at + HM.HEADER <= k < b.End() && k < |m0| :: m0[k] == m1[k])
  }

  /** What the heap stores for everyone but file `a` survives changes to a's own buffers. */
  lemma HeldButOne(t: Tree, a: Addr, live0: set<HM.Block>, m0: seq<Word>, live1: set<HM.Block>, m1: seq<Word>,
                   start: Word, freed: Addr, written: Addr)
    requires Apart(t) && a in t && AllHeld(t, live0, m0, start)
    requires OthersKept(live0, m0, live1, m1, start, freed, written)
    requires freed == 0 || freed == t[a].data
    requires written == t[a].data || written !in Owned(t)
    ensures forall x :: x in t ==> NodeHeld(live1, start, x)
    ensures forall x {:trigger Stored(live1, m1, start, t[x])} :: x in t && x != a ==> Stored(live1, m1, start, t[x])
  {
    forall x | x in t ensures NodeHeld(live1, start, x) {
      assert NodeHeld(live0, start, x);
      var b :| H.Holds(live0, start, x, NODE_SIZE, b);
      assert H.Holds(live1, start, x, NODE_SIZE, b);
    }
    forall x | x in t && x != a ensures Stored(live1, m1, start, t[x]) {
      assert Stored(live0, m0, start, t[x]);
      if t[x].data != 0 {
        assert t[x].data in Owned(t);
        var b :| H.Holds(live0, start, t[x].data, t[x].cap, b) && BufferIs(m0, b, t[x].bytes);
        BufferKept({b}, m0, m1, b, t[x].bytes);
        assert H.Holds(live1, start, t[x].data, t[x].cap, b);
      }
    }
  }

  /** The growing part of ramfs_write: a larger buffer takes over the first bytes of the old one. */
  method Regrow(heap: H.Kheap, src: Word, ghost bytes: seq<Byte>, base: nat, newcap: Word)
      returns (buf: Word, ghost g: HM.Block, ghost copied: nat)
    requires heap.Valid() && base == |bytes| && base <= newcap && 0 < newcap <= 0xFFFF_FFF8
    requires src == 0 ==> base == 0
    requires src != 0 ==> exists s ::
      H.Holds(HM.Live(heap.blocks), heap.start, src, base, s) && BufferIs(heap.mem[..], s, bytes)
    modifies heap`blocks, heap.mem
    ensures heap.Valid()
    ensures buf == 0 <==> old(Refuses(heap.blocks, newcap))
    ensures copied == if buf == 0 then 0 else base
    ensures buf == 0 ==> heap.blocks == old(heap.blocks)
    ensures buf == 0 ==> H.Kept(HM.Live(heap.blocks), old(heap.mem[..]), heap.mem[..])
    ensures buf != 0 ==>
      && buf !in old(heap.Ptrs()) && heap.Ptrs() == old(heap.Ptrs()) + {buf} - {src}
      && H.Holds(HM.Live(heap.blocks), heap.start, buf, newcap, g) && BufferIs(heap.mem[..], g, bytes)
      && OthersKept(old(HM.Live(heap.blocks)), old(heap.mem[..]), HM.Live(heap.blocks), heap.mem[..],
                    heap.start, src, buf)
  {
    ghost var live0, m0 := HM.Live(heap.blocks), heap.mem[..];
    buf := Allocate(heap, newcap);
    copied := 0;
    if buf == 0 {
      g := HM.Block(0, 0, true);
      return;
    }
    ghost var live1, m1 := HM.Live(heap.blocks), heap.mem[..];
    g :| H.Holds(live1, heap.start, buf, newcap, g);
    heap.GrantFits(g);
    assert g !in live0 by {
      assert heap.Payload(g) !in old(heap.Ptrs());
    }
    if base != 0 {
      ghost var s :| H.Holds(live0, heap.start, src, base, s) && BufferIs(m0, s, bytes);
      assert s in live1;
      BufferKept(live0, m0, m1, s, bytes);
      copied := CopyBuffer(heap, buf, src, bytes, base, g, s);
    }
    ghost var m2 := heap.mem[..];
    assert BufferIs(m2, g, bytes);
    assert src in heap.Ptrs() || src == 0;
    Release(heap, src);
    assert H.Holds(HM.Live(heap.blocks), heap.start, buf, newcap, g);
    BufferKept(HM.Live(heap.blocks), m2, heap.mem[..], g, bytes);
  }

  /** The doubling loop of ramfs_write. */
  method GrowTo(capacity: nat, needed: nat) returns (newcap: Word)
    requires F.CapOK(capacity) && capacity < needed <= 0x8000_0000
    ensures newcap == F.NewCap(capacity, needed) && 0 < newcap <= 0xFFFF_FFF8 && needed <= newcap
  {
    newcap := if capacity != 0 then capacity else F.FIRST_CAP;
    F.NewCapOK(capacity, needed);
    while newcap < needed
      invariant 0 < newcap && F.Doubled(newcap, needed) == F.NewCap(capacity, needed)
      decreases needed - newcap
    {
      newcap := newcap * 2;
    }
    CapMultiple(newcap);
  }

  /** Capacities are multiples of 64, so none of the largest sizes is one. */
  lemma CapMultiple(cap: nat)
    requires F.CapOK(cap)
    ensures cap % 64 == 0
  {
    if cap != 0 {
      var k: nat :| cap == F.FIRST_CAP * Pow2(k);
      assert cap == 64 * Pow2(k);
    }
  }

  /** The buffer at `src`, if there is one, has this capacity and begins with these bytes. */
  ghost predicate Begins(live: set<HM.Block>, m: seq<Word>, start: Word, src: Addr, capacity: nat, bytes: seq<Byte>) {
    src != 0 ==> exists s :: H.Holds(live, start, src, capacity, s) && BufferIs(m, s, bytes)
  }

  /** What a write that succeeds leaves: the buffer at `buf` of capacity `cap` holds the kept bytes
      and the new ones, the old buffer is gone if it was outgrown, and nothing else has changed. */
  ghost predicate Wrote(live0: set<HM.Block>, m0: seq<Word>, ptrs0: set<int>,
                        live1: set<HM.Block>, m1: seq<Word>, ptrs1: set<int>, start: Word,
                        src: Addr, capacity: nat, before: seq<Byte>, data: seq<Byte>, buf: Addr, cap: nat) {
    var needed := |before| + |data|;
    && (if capacity < needed
        then cap == F.NewCap(capacity, needed) && buf != 0 && buf !in ptrs0 && ptrs1 == ptrs0 + {buf} - {src}
        else cap == capacity && buf == src && ptrs1 == ptrs0)
    && OthersKept(live0, m0, live1, m1, start, if capacity < needed then src else 0, buf)
    && (buf != 0 ==> exists g :: H.Holds(live1, start, buf, cap, g) && BufferIs(m1, g, before + data))
  }

  /** ramfs_write on the buffer alone: grow it if needed, then copy the data in. `copied` is what
      growing alone has copied. */
  method WriteBuffer(heap: H.Kheap, src: Word, capacity: nat, ghost before: seq<Byte>, base: nat, data: seq<Byte>)
      returns (buf: Word, cap: nat, ok: bool, ghost copied: nat)
    requires heap.Valid() && base == |before| && base <= capacity && base + |data| <= 0x8000_0000
    requires F.CapOK(capacity) && (src == 0 <==> capacity == 0)
    requires Begins(HM.Live(heap.blocks), heap.mem[..], heap.start, src, capacity, before)
    modifies heap`blocks, heap.mem
    ensures heap.Valid()
    ensures ok <==> base + |data| <= capacity || old(!Refuses(heap.blocks, F.NewCap(capacity, base + |data|)))
    ensures !ok ==> heap.blocks == old(heap.blocks)
    ensures !ok ==> H.Kept(HM.Live(heap.blocks), old(heap.mem[..]), heap.mem[..])
    ensures ok ==> Wrote(old(HM.Live(heap.blocks)), old(heap.mem[..]), old(heap.Ptrs()),
                         HM.Live(heap.blocks), heap.mem[..], heap.Ptrs(), heap.start,
                         src, capacity, before, data, buf, cap)
    ensures copied == if ok && capacity < base + |data| then base else 0
  {
    buf, cap, ok, copied := src, capacity, true, 0;
    ghost var g: HM.Block;
    if capacity < base + |data| {
      cap := GrowTo(capacity, base + |data|);
      buf, g, copied := Regrow(heap, src, before, base, cap);
      if buf == 0 {
        return 0, capacity, false, 0;
      }
    } else if src != 0 {
      g :| H.Holds(HM.Live(heap.blocks), heap.start, src, capacity, g) && BufferIs(heap.mem[..], g, before);
    }
    if |data| != 0 {
      assert buf != 0;
      Append(heap, buf, before, base, data, g);
    } else {
      assert before + data == before;
    }
  }

  /** The last two calls of free_tree. */
  method ReleaseNode(heap: H.Kheap, data: Word, addr: Word)
    requires heap.Valid() && addr in heap.Ptrs() && data != addr && (data == 0 || data in heap.Ptrs())
    modifies heap`blocks, heap.mem
    ensures heap.Valid() && heap.Ptrs() == old(heap.Ptrs()) - {data, addr}
    ensures FreedOnly(old(HM.Live(heap.blocks)), old(heap.mem[..]), HM.Live(heap.blocks), heap.mem[..],
                      heap.start, {data, addr})
  {
    Release(heap, data);
    ghost var live1, m1 := HM.Live(heap.blocks), heap.mem[..];
    Release(heap, addr);
    FreedMore(old(HM.Live(heap.blocks)), old(heap.mem[..]), live1, m1, HM.Live(heap.blocks), heap.mem[..],
              heap.start, {data}, {addr});
  }

  /** Address 0 belongs to no block, so it does not matter whether it is listed. */
  lemma FreedSame(live0: set<HM.Block>, m0: seq<Word>, live1: set<HM.Block>, m1: seq<Word>, start: Word,
                  s: set<Addr>, s': set<Addr>)
    requires FreedOnly(live0, m0, live1, m1, start, s) && s - {0} == s' - {0} && 0 < start
    ensures FreedOnly(live0, m0, live1, m1, start, s')
  {
    forall b | b in live0 && H.Addr(start, b.at + HM.HEADER) !in s' ensures b in live1 {
      assert H.Addr(start, b.at + HM.HEADER) in s <==> H.Addr(start, b.at + HM.HEADER) in s - {0};
      assert H.Addr(start, b.at + HM.HEADER) in s' <==> H.Addr(start, b.at + HM.HEADER) in s' - {0};
    }
  }

  /** What a node's own two blocks add to those of the subtrees below it. */
  lemma OwnedTop(t: Tree, root: Addr, n: Addr)
    requires Shape(t, root) && Apart(t) && n in t
    ensures var below := OwnedBy(t, SubAll(t, t[n].kids));
      && (below + {t[n].data, n}) - {0} == OwnedBy(t, Sub(t, n))
      && n !in below && t[n].data !in below && t[n].data != n
      && n in OwnedBy(t, Sub(t, n)) && (t[n].data != 0 ==> t[n].data in OwnedBy(t, Sub(t, n)))
      && 0 !in OwnedBy(t, Sub(t, n))
  {
    SubSplit(t, root, n);
    OwnedUnion(t, {n}, SubAll(t, t[n].kids));
    OwnedOne(t, n);
    OwnedDisjoint(t, {n}, SubAll(t, t[n].kids));
  }

  /** Only blocks at addresses in `s` were freed, and the payloads of the others are untouched. */
  ghost predicate FreedOnly(live0: set<HM.Block>, m0: seq<Word>, live1: set<HM.Block>, m1: seq<Word>,
                            start: Word, s: set<Addr>) {
    && live1 <= live0
    && (forall b :: b in live0 && H.Addr(start, b.at + HM.HEADER) !in s ==> b in live1)
    && H.Kept(live1, m0, m1)
  }

  lemma FreedMore(live0: set<HM.Block>, m0: seq<Word>, live1: set<HM.Block>, m1: seq<Word>,
                  live2: set<HM.Block>, m2: seq<Word>, start: Word, s1: set<Addr>, s2: set<Addr>)
    requires FreedOnly(live0, m0, live1, m1, start, s1) && FreedOnly(live1, m1, live2, m2, start, s2)
    ensures FreedOnly(live0, m0, live2, m2, start, s1 + s2)
  {
  }

  // ---- What a tree operation leaves in the heap ---------------------------------------

  /** The heap holds the tree after a write: the written file's new contents, and all others'. */
  lemma WrittenHeld(t: Tree, a: Addr, r: Rec, live0: set<HM.Block>, m0: seq<Word>, live1: set<HM.Block>, m1: seq<Word>,
                    start: Word, freed: Addr)
    requires Apart(t) && a in t && AllHeld(t, live0, m0, start)
    requires OthersKept(live0, m0, live1, m1, start, freed, r.data)
    requires freed == 0 || freed == t[a].data
    requires r.data == t[a].data || r.data !in Owned(t)
    requires r.data != 0 ==> exists g :: H.Holds(live1, start, r.data, r.cap, g) && BufferIs(m1, g, r.bytes)
    ensures AllHeld(t[a := r], live1, m1, start)
  {
    HeldButOne(t, a, live0, m0, live1, m1, start, freed, r.data);
    var t' := t[a := r];
    forall x | x in t' ensures NodeHeld(live1, start, x) && Stored(live1, m1, start, t'[x]) {
      if x != a {
        assert Stored(live1, m1, start, t[x]);
      }
    }
  }

  /** The tree after a successful write of the heap's part. */
  lemma FillDone(t: Tree, root: Addr, a: Addr, w: F.Write, buf: Addr, cap: nat,
                 live0: set<HM.Block>, m0: seq<Word>, live1: set<HM.Block>, m1: seq<Word>, start: Word)
    requires Good(t, root) && a in t && t[a].kind.File? && F.Succeeds(AsFile(t[a]), w)
    requires cap == if Regrows(t[a], w) then F.NewCap(t[a].cap, F.Base(AsFile(t[a]), w) + |w.data|) else t[a].cap
    requires if Regrows(t[a], w) then buf != 0 && buf !in Owned(t) else buf == t[a].data
    requires AllHeld(t, live0, m0, start)
    requires OthersKept(live0, m0, live1, m1, start, if Regrows(t[a], w) then t[a].data else 0, buf)
    requires buf != 0 ==> exists g ::
      H.Holds(live1, start, buf, cap, g) && BufferIs(m1, g, t[a].bytes[..F.Base(AsFile(t[a]), w)] + w.data)
    ensures WriteTo(t, a, w, buf)[a].data == buf && WriteTo(t, a, w, buf)[a].cap == cap
    ensures AllHeld(WriteTo(t, a, w, buf), live1, m1, start)
  {
    WriteToRec(t, a, w, buf, cap);
    WrittenHeld(t, a, WriteTo(t, a, w, buf)[a], live0, m0, live1, m1, start, if Regrows(t[a], w) then t[a].data else 0);
  }

  lemma FillOwned(t: Tree, root: Addr, a: Addr, w: F.Write, buf: Addr, ptrs0: set<int>, ptrs1: set<int>)
    requires Good(t, root) && a in t && t[a].kind.File? && F.Succeeds(AsFile(t[a]), w)
    requires Owned(t) <= ptrs0 && (w.granted ==> buf != 0 && buf !in ptrs0)
    requires ptrs1 == if Regrows(t[a], w) then ptrs0 + {buf} - {t[a].data} else ptrs0
    ensures Good(WriteTo(t, a, w, buf), root) && (Named(t, root) ==> Named(WriteTo(t, a, w, buf), root))
    ensures Owned(WriteTo(t, a, w, buf)) <= ptrs1
  {
    WriteGood(t, root, a, w, buf);
    assert t[a].data == 0 || t[a].data in Owned(t);
  }

  /** The record a successful write leaves. */
  lemma WriteToRec(t: Tree, a: Addr, w: F.Write, buf: Addr, cap: nat)
    requires a in t && F.Succeeds(AsFile(t[a]), w)
    requires cap == if Regrows(t[a], w) then F.NewCap(t[a].cap, F.Base(AsFile(t[a]), w) + |w.data|) else t[a].cap
    requires !Regrows(t[a], w) ==> buf == t[a].data
    ensures var t' := WriteTo(t, a, w, buf);
      && a in t' && t' == t[a := t'[a]]
      && t'[a] == t[a].(bytes := t[a].bytes[..F.Base(AsFile(t[a]), w)] + w.data, cap := cap, data := buf)
  {
  }

  /** What ramfs_write leaves of tree and heap when it succeeds. */
  ghost predicate Written(t: Tree, root: Addr, a: Addr, w: F.Write, buf: Addr, cap: nat, ptrs0: set<int>,
                          live1: set<HM.Block>, m1: seq<Word>, ptrs1: set<int>, start: Word)
    requires a in t
  {
    var t' := WriteTo(t, a, w, buf);
    && Good(t', root) && (Named(t, root) ==> Named(t', root))
    && t'[a].data == buf && t'[a].cap == cap
    && AllHeld(t', live1, m1, start) && Owned(t') <= ptrs1
    && (if Regrows(t[a], w) then buf != 0 && buf !in ptrs0 && ptrs1 == ptrs0 + {buf} - {t[a].data} else ptrs1 == ptrs0)
  }

  lemma WriteDone(t: Tree, root: Addr, a: Addr, w: F.Write, buf: Addr, cap: nat,
                  live0: set<HM.Block>, m0: seq<Word>, ptrs0: set<int>,
                  live1: set<HM.Block>, m1: seq<Word>, ptrs1: set<int>, start: Word)
    requires Good(t, root) && a in t && t[a].kind.File? && F.Succeeds(AsFile(t[a]), w)
    requires Owned(t) <= ptrs0 && (w.granted ==> Regrows(t[a], w)) && AllHeld(t, live0, m0, start)
    requires Wrote(live0, m0, ptrs0, live1, m1, ptrs1, start,
                   t[a].data, t[a].cap, t[a].bytes[..F.Base(AsFile(t[a]), w)], w.data, buf, cap)
    ensures Written(t, root, a, w, buf, cap, ptrs0, live1, m1, ptrs1, start)
  {
    FillDone(t, root, a, w, buf, cap, live0, m0, live1, m1, start);
    FillOwned(t, root, a, w, buf, ptrs0, ptrs1);
  }

  lemma WriteReady(live: set<HM.Block>, m: seq<Word>, start: Word, r: Rec, before: seq<Byte>)
    requires Stored(live, m, start, r) && before <= r.bytes
    ensures Begins(live, m, start, r.data, r.cap, before)
  {
    if r.data != 0 {
      var b :| H.Holds(live, start, r.data, r.cap, b) && BufferIs(m, b, r.bytes);
      assert BufferIs(m, b, before);
    }
  }

  lemma OwnedSome(t: Tree, s: set<Addr>)
    ensures OwnedBy(t, s) <= Owned(t)
  {
  }

  /** What is left after a delete is still held by the heap. */
  lemma DeletedHeld(t: Tree, n: Addr, live0: set<HM.Block>, m0: seq<Word>, live1: set<HM.Block>, m1: seq<Word>,
                    start: Word)
    requires n in t && Apart(t) && AllHeld(t, live0, m0, start)
    requires FreedOnly(live0, m0, live1, m1, start, OwnedBy(t, Sub(t, n)))
    ensures AllHeld(TreeOps.Delete(t, n), live1, m1, start)
  {
    var t' := TreeOps.Delete(t, n);
    var gone := OwnedBy(t, Sub(t, n));
    assert live0 * live1 == live1;
    forall x | x in t' ensures NodeHeld(live1, start, x) && Stored(live1, m1, start, t'[x]) {
      assert NodeHeld(live0, start, x) && Stored(live0, m0, start, t[x]);
      assert x !in gone && (t[x].data != 0 ==> t[x].data !in gone);
      var b :| H.Holds(live0, start, x, NODE_SIZE, b);
      assert H.Holds(live1, start, x, NODE_SIZE, b);
      StoredKept(live0, live1, m0, m1, start, t[x]);
    }
  }

  /** `t1` is the part of `t0` that no link leads out of. */
  ghost predicate Remains(t0: Tree, t1: Tree) {
    && t1.Keys <= t0.Keys && 0 !in t0
    && (forall x {:trigger t1[x]} :: x in t1 ==> t1[x] == t0[x] && (t1[x].parent in t1 || t1[x].parent == 0))
    && (forall x {:trigger DownOK(t1, x)} :: x in t1 ==> DownOK(t1, x))
  }

  /** Outside the subtree, detaching its top and deleting it leave the same records. */
  lemma DeleteRemains(t: Tree, root: Addr, n: Addr)
    requires CanDetach(t, root, n)
    ensures t[n].parent in t && root in TreeOps.Delete(t, n)
    ensures Remains(Detached(t, n), TreeOps.Delete(t, n))
  {
    ParentOutside(t, root, n);
    DeleteShape(t, root, n);
    var t' := TreeOps.Delete(t, n);
    forall x | x in t' ensures t'[x] == Detached(t, n)[x] && (t'[x].parent in t' || t'[x].parent == 0) {
      assert x != root ==> UpOK(t', x);
    }
  }

  lemma MoveHeld(t: Tree, n: Addr, np: Addr, name: seq<Char>, live: set<HM.Block>, m: seq<Word>, start: Word)
    requires n in t && np in t && AllHeld(t, live, m, start)
    ensures AllHeld(TreeOps.Move(t, n, np, name), live, m, start)
  {
    var t' := TreeOps.Move(t, n, np, name);
    forall x | x in t' ensures NodeHeld(live, start, x) && Stored(live, m, start, t'[x]) {
      assert NodeHeld(live, start, x) && Stored(live, m, start, t[x]);
    }
  }

  lemma InsertHeld(t: Tree, p: Addr, a: Addr, name: seq<Char>, kind: Kind,
                   live: set<HM.Block>, m: seq<Word>, start: Word)
    requires p in t && a !in t && AllHeld(t, live, m, start) && NodeHeld(live, start, a)
    ensures AllHeld(Insert(t, p, a, name, kind), live, m, start)
  {
    var t' := Insert(t, p, a, name, kind);
    forall x | x in t' ensures NodeHeld(live, start, x) && Stored(live, m, start, t'[x]) {
      if x != a {
        assert NodeHeld(live, start, x) && Stored(live, m, start, t[x]);
      }
    }
  }

  /** What ramfs_create leaves of tree and heap once the node hangs in the tree. */
  ghost predicate Inserted(t: Tree, root: Addr, p: Addr, a: Addr, name: seq<Char>, kind: Kind,
                           live: set<HM.Block>, m: seq<Word>, ptrs: set<int>, start: Word)
    requires p in t
  {
    var t' := Insert(t, p, a, name, kind);
    && Good(t', root) && Owned(t') == Owned(t) + {a} && Owned(t') <= ptrs && AllHeld(t', live, m, start)
    && (Named(t, root) && FindChild(t, t[p].kids, name) == 0 ==> Named(t', root))
  }

  lemma InsertDone(t: Tree, root: Addr, p: Addr, a: Addr, name: seq<Char>, kind: Kind,
                   live: set<HM.Block>, m: seq<Word>, ptrs0: set<int>, start: Word)
    requires Good(t, root) && p in t && t[p].kind.Dir? && a != 0 && NameOK(name)
    requires Owned(t) <= ptrs0 && a !in ptrs0 && AllHeld(t, live, m, start) && NodeHeld(live, start, a)
    ensures Inserted(t, root, p, a, name, kind, live, m, ptrs0 + {a}, start)
  {
    InsertGood(t, root, p, a, name, kind);
    if Named(t, root) && FindChild(t, t[p].kids, name) == 0 {
      InsertNamed(t, root, p, a, name, kind);
    }
    InsertHeld(t, p, a, name, kind, live, m, start);
  }

  /** The tree of a root alone. */
  function RootOnly(p: Addr): Tree {
    map[p := Rec([], Dir, 0, [], 0, 0, [], 0)]
  }

  lemma RootOnlyGood(p: Addr, live: set<HM.Block>, m: seq<Word>, start: Word)
    requires p != 0 && NodeHeld(live, start, p)
    ensures Good(RootOnly(p), p) && Named(RootOnly(p), p) && Owned(RootOnly(p)) == {p}
    ensures AllHeld(RootOnly(p), live, m, start)
  {
    assert DownOK(RootOnly(p), p);
  }
}
