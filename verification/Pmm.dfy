/** mm/pmm.c: the frame allocator, a bitmap of one bit per 4 KiB frame with a running count of
    the bits that are set. */
module Pmm {
  import opened Machine

  const PAGE_SIZE: nat := 4096
  const MAX_FRAMES: nat := 262144  // 1 GiB
  const WORDS: nat := 8192         // MAX_FRAMES / 32

  // ---- Bits -----------------------------------------------------------------------------

  /** w & (1u << k). */
  predicate Bit(w: nat, k: nat) {
    if k == 0 then w % 2 == 1 else Bit(w / 2, k - 1)
  }

  /** w | (1u << k) where the bit is clear, and w & ~(1u << k) where it is set. */
  function Flip(w: nat, k: nat): int {
    if Bit(w, k) then w - Pow2(k) else w + Pow2(k)
  }

  /** Adding or taking away 2^k changes bit k, no other bit, and no width the bit fits. */
  lemma {:induction false} FlipBits(w: nat, k: nat, j: nat, n: nat)
    requires w < Pow2(n) && k < n
    ensures 0 <= Flip(w, k) < Pow2(n)
    ensures Bit(Flip(w, k), j) == if j == k then !Bit(w, j) else Bit(w, j)
    decreases k
  {
    if k == 0 {
      assert w / 2 < Pow2(n - 1);
      assert Flip(w, 0) / 2 == w / 2;
    } else {
      FlipBits(w / 2, k - 1, if j == 0 then 0 else j - 1, n - 1);
      assert Flip(w, k) / 2 == Flip(w / 2, k - 1) && Flip(w, k) % 2 == w % 2;
    }
  }

  lemma {:induction false} ZeroBits(k: nat)
    ensures !Bit(0, k)
  {
    if k != 0 {
      ZeroBits(k - 1);
    }
  }

  lemma WordBits()
    ensures Pow2(32) == 0x1_0000_0000
  {
    assert Pow2(8) == 0x100;
    assert Pow2(16) == 0x1_0000;
    assert Pow2(24) == 0x100_0000;
  }

  function FlipWord(w: Word, k: nat): Word
    requires k < 32
  {
    WordBits();
    FlipBits(w, k, k, 32);
    Flip(w, k)
  }

  /** Frame `f`'s bit is set. */
  predicate Held(b: seq<Word>, f: nat)
    requires f < 32 * |b|
  {
    Bit(b[f / 32], f % 32)
  }

  /** A change of one bit of one word changes one frame. */
  lemma HeldChange(b: seq<Word>, f: nat, g: nat)
    requires f < 32 * |b| && g < 32 * |b|
    ensures Held(b[f / 32 := FlipWord(b[f / 32], f % 32)], g) == if g == f then !Held(b, g) else Held(b, g)
  {
    if g / 32 == f / 32 {
      WordBits();
      FlipBits(b[f / 32], f % 32, g % 32, 32);
      assert g == f <==> g % 32 == f % 32;
    }
  }

  /** The frames whose bits are set. */
  ghost function Frames(b: seq<Word>): set<nat> {
    set f: nat | f < 32 * |b| && Held(b, f)
  }

  lemma FramesChange(b: seq<Word>, f: nat)
    requires f < 32 * |b|
    ensures Frames(b[f / 32 := FlipWord(b[f / 32], f % 32)]) == if Held(b, f) then Frames(b) - {f} else Frames(b) + {f}
  {
    forall g: nat | g < 32 * |b|
      ensures Held(b[f / 32 := FlipWord(b[f / 32], f % 32)], g) == if g == f then !Held(b, g) else Held(b, g)
    {
      HeldChange(b, f, g);
    }
  }

  /** The first `n` frames. */
  ghost function FirstFrames(n: nat): set<nat> {
    if n == 0 then {} else FirstFrames(n - 1) + {n - 1}
  }

  lemma {:induction false} FirstFramesAre(n: nat)
    ensures forall f: nat :: f in FirstFrames(n) <==> f < n
    ensures |FirstFrames(n)| == n
  {
    if n != 0 {
      FirstFramesAre(n - 1);
    }
  }

  /** f * PAGE_SIZE and addr / PAGE_SIZE. */
  function AddrOf(f: nat): nat {
    4096 * f
  }

  function FrameOf(addr: nat): nat {
    addr / 4096
  }

  lemma AddrFrame(f: nat)
    ensures FrameOf(AddrOf(f)) == f
  {
  }

  // ---- The allocator as a set of frames ----------------------------------------------------

  /** The first frame from `f` on that is not in use; `total` when there is none. */
  function FirstFree(used: set<nat>, f: nat, total: nat): (g: nat)
    requires f <= total
    decreases total - f
  {
    if f == total || f !in used then f else FirstFree(used, f + 1, total)
  }

  lemma {:induction false} FirstFreeIsLowest(used: set<nat>, f: nat, total: nat)
    requires f <= total
    ensures f <= FirstFree(used, f, total) <= total
    ensures FirstFree(used, f, total) < total ==> FirstFree(used, f, total) !in used
    ensures forall g :: f <= g < FirstFree(used, f, total) ==> g in used
    decreases total - f
  {
    if f < total && f in used {
      FirstFreeIsLowest(used, f + 1, total);
    }
  }

  /** pmm_alloc_frame on the set. */
  function Alloc(used: set<nat>, total: nat): set<nat> {
    var f := FirstFree(used, 0, total);
    if f < total then used + {f} else used
  }

  /** The address it returns. */
  function Address(used: set<nat>, total: nat): nat {
    var f := FirstFree(used, 0, total);
    if f < total then AddrOf(f) else 0
  }

  /** pmm_free_frame on the set. */
  function Free(used: set<nat>, total: nat, addr: nat): set<nat> {
    if FrameOf(addr) < total then used - {FrameOf(addr)} else used
  }

  /** An allocation takes the frame at the address it returns and no other; when every frame is in use
      it takes none and returns 0. */
  lemma AllocMeaning(used: set<nat>, total: nat)
    ensures (forall f :: 0 <= f < total ==> f in used) ==> Alloc(used, total) == used && Address(used, total) == 0
    ensures (exists f :: 0 <= f < total && f !in used) ==>
      && Address(used, total) % 4096 == 0 && Address(used, total) < total * 4096
      && Address(used, total) / 4096 !in used && Alloc(used, total) == used + {Address(used, total) / 4096}
  {
    FirstFreeIsLowest(used, 0, total);
  }

  /** Freeing an address takes away the frame it lies in and no other; of an address beyond the
      memory it takes none. The next allocation gives the lower of that frame and the one it would
      have given before. */
  lemma FreeMeaning(used: set<nat>, total: nat, addr: nat)
    ensures total * 4096 <= addr ==> Free(used, total, addr) == used
    ensures addr < total * 4096 ==> forall f :: f in Free(used, total, addr) <==> f in used && f != addr / 4096
    ensures FirstFree(Free(used, total, addr), 0, total) ==
      if addr / 4096 < FirstFree(used, 0, total) then addr / 4096 else FirstFree(used, 0, total)
  {
    FirstFreeIsLowest(used, 0, total);
    FirstFreeIsLowest(Free(used, total, addr), 0, total);
  }

  /** Freeing the frame just allocated restores the set. */
  lemma FreeUndoesAlloc(used: set<nat>, total: nat)
    requires FirstFree(used, 0, total) < total
    ensures Free(Alloc(used, total), total, Address(used, total)) == used
  {
    FirstFreeIsLowest(used, 0, total);
  }

  // ---- Runs of one client ---------------------------------------------------------------------

  datatype Op = Take | Give(addr: nat)

  /** The frames in use, and the addresses the client holds. */
  datatype Client = Client(used: set<nat>, held: set<nat>)

  function Do(c: Client, total: nat, op: Op): Client {
    match op
    case Take =>
      if FirstFree(c.used, 0, total) < total
      then Client(Alloc(c.used, total), c.held + {Address(c.used, total)})
      else c
    case Give(a) => Client(Free(c.used, total, a), c.held - {a})
  }

  /** The client gives back only what it holds. */
  predicate Legal(c: Client, op: Op) {
    op.Give? ==> op.addr in c.held
  }

  ghost predicate LegalRun(c: Client, total: nat, ops: seq<Op>)
    decreases |ops|
  {
    ops == [] || (Legal(c, ops[0]) && LegalRun(Do(c, total, ops[0]), total, ops[1..]))
  }

  function Run(c: Client, total: nat, ops: seq<Op>): Client
    decreases |ops|
  {
    if ops == [] then c else Run(Do(c, total, ops[0]), total, ops[1..])
  }

  /** In use are the reserved frames and one frame for every address held. */
  ghost predicate Kept(c: Client, reserved: set<nat>, total: nat) {
    && (forall a :: a in c.held ==> a == AddrOf(FrameOf(a)) && FrameOf(a) < total && FrameOf(a) !in reserved)
    && (forall f :: f in c.used <==> f in reserved || AddrOf(f) in c.held)
    && |c.used| == |reserved| + |c.held|
  }

  /** A frame is handed out only while nobody holds it. */
  lemma TakeIsNew(c: Client, reserved: set<nat>, total: nat)
    requires Kept(c, reserved, total) && FirstFree(c.used, 0, total) < total
    ensures Address(c.used, total) !in c.held && FirstFree(c.used, 0, total) !in reserved
    ensures Kept(Do(c, total, Take), reserved, total)
  {
    FirstFreeIsLowest(c.used, 0, total);
    var f := FirstFree(c.used, 0, total);
    var c' := Do(c, total, Take);
    forall g ensures g in c'.used <==> g in reserved || AddrOf(g) in c'.held {
      AddrFrame(g);
      AddrFrame(f);
    }
  }

  lemma GiveKept(c: Client, reserved: set<nat>, total: nat, a: nat)
    requires Kept(c, reserved, total) && a in c.held
    ensures Kept(Do(c, total, Give(a)), reserved, total)
  {
    var c' := Do(c, total, Give(a));
    forall g ensures g in c'.used <==> g in reserved || AddrOf(g) in c'.held {
      AddrFrame(g);
    }
  }

  /** After any legal run the frames in use are the reserved ones and one for every address held:
      nothing leaks and nothing is handed out twice. */
  lemma {:induction false} RunKept(c: Client, reserved: set<nat>, total: nat, ops: seq<Op>)
    requires Kept(c, reserved, total) && LegalRun(c, total, ops)
    ensures Kept(Run(c, total, ops), reserved, total)
    decreases |ops|
  {
    if ops != [] {
      match ops[0] {
        case Take =>
          if FirstFree(c.used, 0, total) < total {
            TakeIsNew(c, reserved, total);
          }
        case Give(a) => GiveKept(c, reserved, total, a);
      }
      RunKept(Do(c, total, ops[0]), reserved, total, ops[1..]);
    }
  }

  /** With frame 0 reserved, as at boot, address 0 means exactly that memory has run out. */
  lemma ZeroMeansNone(c: Client, reserved: set<nat>, total: nat, ops: seq<Op>)
    requires Kept(c, reserved, total) && LegalRun(c, total, ops) && 0 in reserved
    ensures var u := Run(c, total, ops).used;
      Address(u, total) == 0 <==> FirstFree(u, 0, total) == total
  {
    RunKept(c, reserved, total, ops);
    FirstFreeIsLowest(Run(c, total, ops).used, 0, total);
  }

  /** How many pages `bytes` bytes reach into. */
  function Pages(bytes: nat): nat {
    (bytes + PAGE_SIZE - 1) / PAGE_SIZE
  }

  lemma PagesCover(bytes: nat)
    ensures bytes <= AddrOf(Pages(bytes)) < bytes + PAGE_SIZE
    ensures bytes <= AddrOf(MAX_FRAMES) ==> Pages(bytes) <= MAX_FRAMES
  {
  }

  /** `addr` starts frame `n`, the next one to take of the `pages` that reach up to `reserved`. */
  ghost predicate OnTheWay(addr: nat, n: nat, pages: nat, reserved: nat) {
    addr == AddrOf(n) && n <= pages <= MAX_FRAMES && reserved <= AddrOf(pages) < reserved + PAGE_SIZE
  }

  lemma Arrived(addr: nat, n: nat, pages: nat, reserved: nat)
    requires OnTheWay(addr, n, pages, reserved) && reserved <= addr
    ensures n == pages
  {
  }

  // ---- The bitmap --------------------------------------------------------------------------------

  class FrameMap {
    const bitmap: array<Word>
    var total: nat
    var used: nat

    ghost function Set(): set<nat>
      reads bitmap
    {
      Frames(bitmap[..])
    }

    /** The counter is the number of bits that are set. */
    ghost predicate Valid()
      reads this, bitmap
    {
      && bitmap.Length == WORDS && total <= MAX_FRAMES
      && used == |Set()|
    }

    /** The statically zeroed bitmap. */
    constructor ()
      ensures Valid() && fresh(bitmap) && Set() == {} && total == 0
    {
      bitmap := new Word[WORDS](_ => 0);
      total, used := 0, 0;
      new;
      forall f: nat ensures !Bit(0, f) {
        ZeroBits(f);
      }
      assert Set() == {};
    }

    method MarkUsed(f: nat)
      requires Valid() && f < MAX_FRAMES
      modifies this`used, bitmap
      ensures Valid() && Set() == old(Set()) + {f}
    {
      assert Held(bitmap[..], f) <==> f in Set();
      if !Bit(bitmap[f / 32], f % 32) {
        ghost var b := bitmap[..];
        FramesChange(b, f);
        bitmap[f / 32] := FlipWord(bitmap[f / 32], f % 32);
        assert bitmap[..] == b[f / 32 := FlipWord(b[f / 32], f % 32)];
        used := used + 1;
      }
    }

    /** Exactly the first `n` frames are in use. */
    ghost predicate Taken(n: nat)
      reads this, bitmap
    {
      Valid() && Set() == FirstFrames(n)
    }

    /** One turn of the loop of pmm_init, at the start of frame `n`. */
    method TakePage(addr: nat, ghost n: nat, ghost pages: nat, ghost reserved: Word)
      requires Taken(n) && OnTheWay(addr, n, pages, reserved) && addr < reserved
      modifies this`used, bitmap
      ensures Taken(n + 1) && OnTheWay(addr + PAGE_SIZE, n + 1, pages, reserved)
    {
      AddrFrame(n);
      MarkUsed(FrameOf(addr));
    }

    /** The loop of pmm_init: take every frame that starts below `reserved`. */
    method Reserve(reserved: Word, ghost pages: nat)
      requires Taken(0) && reserved <= AddrOf(pages) < reserved + PAGE_SIZE && pages <= MAX_FRAMES
      modifies this`used, bitmap
      ensures Taken(pages)
    {
      var addr := 0;
      ghost var n: nat := 0;
      while addr < reserved
        invariant OnTheWay(addr, n, pages, reserved) && Taken(n)
        decreases reserved - addr
      {
        TakePage(addr, n, pages, reserved);
        n := n + 1;
        addr := addr + PAGE_SIZE;
      }
      Arrived(addr, n, pages, reserved);
    }

    /** pmm_init: `memUpper` KiB above the first megabyte, the first `reserved` bytes taken. */
    method Init(memUpper: Word, reserved: Word)
      requires Valid() && Set() == {} && reserved <= MAX_FRAMES * PAGE_SIZE
      modifies this`total, this`used, bitmap
      ensures Valid()
      ensures var kib := (1024 + memUpper) % 0x1_0000_0000;
        total == if kib / 4 > 0x4_0000 then 0x4_0000 else kib / 4
      ensures Set() == FirstFrames(Pages(reserved)) && forall f: nat :: f in Set() <==> f * 4096 < reserved
    {
      var kib := (1024 + memUpper) % 0x1_0000_0000;
      total := kib / (PAGE_SIZE / 1024);
      if total > MAX_FRAMES {
        total := MAX_FRAMES;
      }
      PagesCover(reserved);
      Reserve(reserved, Pages(reserved));
      FirstFramesAre(Pages(reserved));
    }

    /** pmm_alloc_frame. */
    method AllocFrame() returns (addr: Word)
      requires Valid()
      modifies this`used, bitmap
      ensures Valid()
      ensures addr == Address(old(Set()), total) && Set() == Alloc(old(Set()), total)
    {
      for f := 0 to total
        invariant Valid() && Set() == old(Set())
        invariant FirstFree(Set(), 0, total) == FirstFree(Set(), f, total)
      {
        assert Held(bitmap[..], f) <==> f in Set();
        if !Bit(bitmap[f / 32], f % 32) {
          MarkUsed(f);
          return AddrOf(f);
        }
      }
      return 0;
    }

    /** pmm_free_frame: an address outside the memory, or of a free frame, changes nothing. */
    method FreeFrame(addr: Word)
      requires Valid()
      modifies this`used, bitmap
      ensures Valid() && Set() == Free(old(Set()), total, addr)
    {
      var f := FrameOf(addr);
      if f < total {
        assert Held(bitmap[..], f) <==> f in Set();
        if Bit(bitmap[f / 32], f % 32) {
          ghost var b := bitmap[..];
          FramesChange(b, f);
          bitmap[f / 32] := FlipWord(bitmap[f / 32], f % 32);
          assert bitmap[..] == b[f / 32 := FlipWord(b[f / 32], f % 32)];
          used := used - 1;
        }
      }
    }
  }
}
