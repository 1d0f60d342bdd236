/** mm/paging.c: the page directory that maps all of memory at 0xC0000000 with 4 MiB pages. */
module Paging {
  import opened Machine
  import Pmm

  const KERNEL_VBASE: nat := 0xC000_0000
  const KERNEL_PDE: nat := 768
  const ENTRIES: nat := 1024
  const LARGE_PAGE: nat := 0x40_0000
  const FLAGS: nat := 0x83  // present, writable, 4 MiB page

  // ---- What the processor makes of a directory ------------------------------------------------

  /** The outcome of a lookup: a fault, a physical address, or a page table to go on with. */
  datatype Lookup = Fault | Phys(pa: nat) | Table(pde: Word)

  predicate Present(pde: Word) {
    pde % 2 == 1
  }

  predicate Large(pde: Word) {
    pde / 0x80 % 2 == 1
  }

  /** Intel SDM volume 3A, section 4.3: for a 4 MiB page, bits 31:22 of the physical address come
      from the entry, bits 39:32 from its bits 20:13, and bits 21:0 from the linear address. */
  function Translate(pd: seq<Word>, va: Word): Lookup
    requires |pd| == ENTRIES
  {
    var pde := pd[va / LARGE_PAGE];
    if !Present(pde) then Fault
    else if !Large(pde) then Table(pde)
    else Phys(pde / LARGE_PAGE * LARGE_PAGE + pde / 0x2000 % 0x100 * 0x1_0000_0000 + va % LARGE_PAGE)
  }

  // ---- The directory the kernel builds -----------------------------------------------------------

  /** How many 4 MiB entries cover `kib` KiB of memory, at most the 1 GiB window. */
  function Needed(kib: nat): nat {
    var mib := (kib + 1023) / 1024;
    var n := (mib + 3) / 4;
    if n > ENTRIES - KERNEL_PDE then ENTRIES - KERNEL_PDE else n
  }

  /** Entry `i` of the kernel window: (i << 22) | FLAGS, whose bits do not meet. */
  function Pde(i: nat): Word
    requires i < ENTRIES - KERNEL_PDE
  {
    i * LARGE_PAGE + FLAGS
  }

  /** The first `n` entries of the window are mapped and nothing else is. */
  ghost predicate Direct(pd: seq<Word>, n: nat)
    requires n <= ENTRIES - KERNEL_PDE
  {
    && |pd| == ENTRIES
    && forall i :: 0 <= i < ENTRIES ==> pd[i] == if KERNEL_PDE <= i < KERNEL_PDE + n then Pde(i - KERNEL_PDE) else 0
  }

  /** What the processor sees: the window maps P2V(pa) to pa, and every other address faults. */
  lemma DirectMeaning(pd: seq<Word>, n: nat, va: Word)
    requires n <= ENTRIES - KERNEL_PDE && Direct(pd, n)
    ensures Translate(pd, va) ==
      if KERNEL_VBASE <= va < KERNEL_VBASE + n * LARGE_PAGE then Phys(va - KERNEL_VBASE) else Fault
  {
    var i := va / LARGE_PAGE;
    if KERNEL_PDE <= i < KERNEL_PDE + n {
      var k := i - KERNEL_PDE;
      var pde := Pde(k);
      assert pde / LARGE_PAGE == k && pde / 0x80 % 2 == 1 && pde % 2 == 1;
      assert pde / 0x2000 == 512 * k && pde / 0x2000 % 0x100 == 0;
    }
  }

  /** Every byte of every frame the allocator may hand out is reachable at P2V of its address,
      two virtual addresses never share a byte, and nothing below 0xC0000000 is mapped. */
  lemma AllMemoryMapped(pd: seq<Word>, total: nat)
    requires total <= Pmm.MAX_FRAMES
    requires Direct(pd, Needed(total * (Pmm.PAGE_SIZE / 1024)))
    ensures forall pa: nat :: pa < total * Pmm.PAGE_SIZE ==> Translate(pd, KERNEL_VBASE + pa) == Phys(pa)
    ensures forall va, vb: Word :: Translate(pd, va).Phys? && Translate(pd, va) == Translate(pd, vb) ==> va == vb
    ensures forall va: Word :: va < KERNEL_VBASE ==> Translate(pd, va) == Fault
  {
    var n := Needed(total * (Pmm.PAGE_SIZE / 1024));
    assert total * Pmm.PAGE_SIZE <= n * LARGE_PAGE;
    forall va: Word
      ensures Translate(pd, va) ==
        if KERNEL_VBASE <= va < KERNEL_VBASE + n * LARGE_PAGE then Phys(va - KERNEL_VBASE) else Fault
    {
      DirectMeaning(pd, n, va);
    }
  }

  lemma PagesNeeded(kib: nat, k: nat)
    requires k < 256
    ensures k < Needed(kib) <==> k * 4096 < kib
  {
  }

  /** No page without memory is mapped: an address from 0xC0000000 on is translated exactly when its
      4 MiB page holds a byte of the memory, and every other one faults. */
  lemma MappedExactly(pd: seq<Word>, kib: nat, va: Word)
    requires Direct(pd, Needed(kib))
    ensures var l := Translate(pd, va);
      if 0xC000_0000 <= va && (va - 0xC000_0000) / 0x40_0000 * 0x40_0000 < kib * 1024
      then l == Phys(va - 0xC000_0000) else l == Fault
  {
    DirectMeaning(pd, Needed(kib), va);
    if 0xC000_0000 <= va {
      var k := (va - 0xC000_0000) / 0x40_0000;
      PagesNeeded(kib, k);
      assert va - 0xC000_0000 < Needed(kib) * 0x40_0000 <==> k < Needed(kib);
    }
  }

  /** What is mapped may be written, by the kernel alone: bit 1 is set and bit 2 is not. */
  lemma KernelMayWrite(pd: seq<Word>, n: nat, i: nat)
    requires n <= ENTRIES - KERNEL_PDE && Direct(pd, n) && i < 1024 && Present(pd[i])
    ensures pd[i] / 2 % 2 == 1 && pd[i] / 4 % 2 == 0
  {
    assert pd[i] == 0x40_0000 * (i - 768) + 0x83;
  }

  /** The figure printed at boot: the memory below 1 GiB, rounded up to 4 MiB. */
  lemma MibShown(pd: seq<Word>, kib: nat)
    requires Direct(pd, Needed(kib))
    ensures var mib := 4 * Mapped(pd, 1024);
      if kib <= 0x10_0000 then kib <= 1024 * mib < kib + 4096 else mib == 1024
  {
    MappedIs(pd, Needed(kib), 1024);
  }

  /** The frame just allocated can be written through P2V, byte for byte. */
  lemma FrameMapped(pd: seq<Word>, used: set<nat>, total: nat, k: nat)
    requires total <= Pmm.MAX_FRAMES && k < Pmm.PAGE_SIZE
    requires Direct(pd, Needed(total * (Pmm.PAGE_SIZE / 1024)))
    requires Pmm.FirstFree(used, 0, total) < total
    ensures KERNEL_VBASE + Pmm.Address(used, total) + k < 0x1_0000_0000
    ensures Translate(pd, KERNEL_VBASE + Pmm.Address(used, total) + k) == Phys(Pmm.Address(used, total) + k)
  {
    AllMemoryMapped(pd, total);
    var pa := Pmm.Address(used, total) + k;
    assert pa < total * Pmm.PAGE_SIZE;
  }

  /** How many of the first `n` entries are present. */
  function Mapped(pd: seq<Word>, n: nat): nat
    requires n <= |pd|
  {
    if n == 0 then 0 else Mapped(pd, n - 1) + if Present(pd[n - 1]) then 1 else 0
  }

  lemma {:induction false} MappedIs(pd: seq<Word>, n: nat, k: nat)
    requires n <= ENTRIES - KERNEL_PDE && Direct(pd, n) && k <= ENTRIES
    ensures Mapped(pd, k) == if k <= KERNEL_PDE then 0 else if k <= KERNEL_PDE + n then k - KERNEL_PDE else n
  {
    if k != 0 {
      MappedIs(pd, n, k - 1);
    }
  }

  class Directory {
    const pd: array<Word>

    /** The statically zeroed directory. */
    constructor ()
      ensures fresh(pd) && Direct(pd[..], 0)
    {
      pd := new Word[ENTRIES](_ => 0);
    }

    /** paging_init for `kib` KiB of memory, up to loading CR3. */
    method Init(kib: Word)
      requires Direct(pd[..], 0) && kib < 0x1_0000_0000 - 1023
      modifies pd
      ensures Direct(pd[..], Needed(kib))
    {
      var mib := (kib + 1023) / 1024;
      var entries := (mib + 3) / 4;
      if entries > ENTRIES - KERNEL_PDE {
        entries := ENTRIES - KERNEL_PDE;
      }
      for i := 0 to entries
        invariant Direct(pd[..], i)
      {
        pd[KERNEL_PDE + i] := Pde(i);
      }
    }

    /** paging_mapped_mib: four for every entry that is present. */
    method MappedMib() returns (mib: nat)
      requires pd.Length == ENTRIES
      ensures mib == 4 * Mapped(pd[..], ENTRIES)
    {
      var n := 0;
      for i := 0 to ENTRIES
        invariant n == Mapped(pd[..], i)
      {
        if Present(pd[i]) {
          n := n + 1;
        }
      }
      mib := n * 4;
    }
  }
}
