/** Runs of writes to one file: contents, capacity, and the cost of growing. */
module FileModel {
  import opened Machine

  const FIRST_CAP: nat := 64

  /** The doubling loop of ramfs_write. */
  function Doubled(cap: nat, needed: nat): (c: nat)
    requires 0 < cap
    ensures needed <= c && cap <= c
    ensures c == cap || c < 2 * needed
    ensures c == cap || 2 * cap <= c
    decreases needed - cap
  {
    if needed <= cap then cap else Doubled(2 * cap, needed)
  }

  function NewCap(cap: nat, needed: nat): nat {
    Doubled(if cap == 0 then FIRST_CAP else cap, needed)
  }

  /** Nothing, or 64 times a power of two. */
  ghost predicate CapOK(cap: nat) {
    cap == 0 || exists k: nat :: cap == FIRST_CAP * Pow2(k)
  }

  lemma {:induction false} DoubledCapOK(cap: nat, needed: nat)
    requires 0 < cap && CapOK(cap)
    ensures CapOK(Doubled(cap, needed))
    decreases needed - cap
  {
    if cap < needed {
      var k: nat :| cap == FIRST_CAP * Pow2(k);
      assert 2 * cap == FIRST_CAP * Pow2(k + 1);
      DoubledCapOK(2 * cap, needed);
    }
  }

  lemma NewCapOK(cap: nat, needed: nat)
    requires CapOK(cap)
    ensures CapOK(NewCap(cap, needed)) && 0 < NewCap(cap, needed) && needed <= NewCap(cap, needed)
  {
    assert FIRST_CAP == FIRST_CAP * Pow2(0);
    DoubledCapOK(if cap == 0 then FIRST_CAP else cap, needed);
  }

  /** The capacity after `k` rounds of the loop from the first one, as 32-bit arithmetic has it. */
  function Rounds(k: nat): Word {
    if k == 0 then FIRST_CAP else Rounds(k - 1) * 2 % 0x1_0000_0000
  }

  lemma {:induction false} Pow2Grows(j: nat, k: nat)
    requires j <= k
    ensures Pow2(j) <= Pow2(k)
    decreases k
  {
    if j < k {
      Pow2Grows(j, k - 1);
    }
  }

  lemma Pow2Limit()
    ensures Pow2(25) == 0x200_0000
  {
    assert Pow2(10) == 0x400;
    assert Pow2(20) == 0x10_0000;
  }

  lemma {:induction false} RoundsLow(k: nat)
    requires k <= 25
    ensures Rounds(k) == 64 * Pow2(k) <= 0x8000_0000
    ensures k == 25 ==> Rounds(k) == 0x8000_0000
  {
    Pow2Limit();
    Pow2Grows(k, 25);
    if k != 0 {
      RoundsLow(k - 1);
    }
  }

  lemma RoundsOver(k: nat)
    requires k != 0 && Rounds(k - 1) in {0, 0x8000_0000}
    ensures Rounds(k) == 0
  {
  }

  lemma {:induction false} RoundsHigh(k: nat)
    requires 25 < k
    ensures Rounds(k) == 0
  {
    if k == 26 {
      RoundsLow(k - 1);
    } else {
      RoundsHigh(k - 1);
    }
    RoundsOver(k);
  }

  /** From any capacity a file can have, the loop of ramfs_write ends if and only if the size asked
      for is at most 2^31; beyond that the capacity wraps to zero and the loop never ends. */
  lemma GrowthEndsIff(j: nat, needed: Word)
    requires j <= 25
    ensures (exists k: nat :: j <= k && needed <= Rounds(k)) <==> needed <= 0x8000_0000
  {
    forall k: nat ensures Rounds(k) <= 0x8000_0000 {
      if k <= 25 {
        RoundsLow(k);
      } else {
        RoundsHigh(k);
      }
    }
    RoundsLow(25);
    if needed <= 0x8000_0000 {
      assert j <= 25 && needed <= Rounds(25);
    }
  }

  /** Computed in 32 bits, the test for growing is the true one if and only if the sum of the
      bytes kept and the bytes added does not wrap; where it wraps, the buffer is not grown. */
  lemma GuardExactIff(cap: Word, base: nat, len: Word)
    requires base <= cap
    ensures ((base + len) % 0x1_0000_0000 <= cap <==> base + len <= cap) <==> base + len < 0x1_0000_0000
  {
    if 0x1_0000_0000 <= base + len {
      assert (base + len) % 0x1_0000_0000 == base + len - 0x1_0000_0000;
    }
  }

  /** A file: its bytes and capacity, the bytes copied by regrowth so far, the largest size so far. */
  datatype File = File(bytes: seq<Byte>, cap: nat, copied: nat, peak: nat)

  /** One call of ramfs_write; `granted` says whether kmalloc would find room. */
  datatype Write = Write(data: seq<Byte>, append: bool, granted: bool)

  const Empty := File([], 0, 0, 0)

  function Base(f: File, w: Write): nat {
    if w.append then |f.bytes| else 0
  }

  predicate Succeeds(f: File, w: Write) {
    Base(f, w) + |w.data| <= f.cap || w.granted
  }

  function Apply(f: File, w: Write): File {
    var needed := Base(f, w) + |w.data|;
    if !Succeeds(f, w) then f
    else File(f.bytes[..Base(f, w)] + w.data,
              if f.cap < needed then NewCap(f.cap, needed) else f.cap,
              if f.cap < needed then f.copied + Base(f, w) else f.copied,
              if f.peak < needed then needed else f.peak)
  }

  /** Capacity, size, peak and bytes copied, as every write keeps them. */
  ghost predicate Bounded(f: File) {
    && |f.bytes| <= f.cap && |f.bytes| <= f.peak && CapOK(f.cap) && f.copied <= f.cap
    && (FIRST_CAP < f.cap ==> f.cap < 2 * f.peak)
  }

  /** A write fails exactly when its bytes do not fit the capacity and no larger buffer is granted;
      otherwise they stand alone, or behind what was there. */
  lemma WriteMeaning(f: File, w: Write)
    requires Bounded(f)
    ensures var kept := if w.append then f.bytes else [];
      && (Succeeds(f, w) <==> |kept| + |w.data| <= f.cap || w.granted)
      && (Succeeds(f, w) ==> Apply(f, w).bytes == kept + w.data)
      && (!Succeeds(f, w) ==> Apply(f, w) == f)
      && (|kept| + |w.data| <= f.cap ==> Apply(f, w).cap == f.cap && Apply(f, w).copied == f.copied)
  {
    assert f.bytes[..|f.bytes|] == f.bytes;
  }

  /** One write after another, from `f` on. */
  function Replay(f: File, ws: seq<Write>): File {
    if ws == [] then f else Apply(Replay(f, ws[..|ws| - 1]), ws[|ws| - 1])
  }

  lemma {:induction false} ReplayRun(ws: seq<Write>)
    ensures Replay(Empty, ws) == Run(ws)
  {
    if ws != [] {
      ReplayRun(ws[..|ws| - 1]);
    }
  }

  lemma ApplySame(f: File, g: File, w: Write)
    requires f.bytes == g.bytes && f.cap == g.cap
    ensures Apply(f, w).bytes == Apply(g, w).bytes && Apply(f, w).cap == Apply(g, w).cap
  {
  }

  lemma ReplayLast(f: File, w: Write, ws: seq<Write>)
    requires ws != []
    ensures Replay(f, [w] + ws) == Apply(Replay(f, [w] + ws[..|ws| - 1]), ws[|ws| - 1])
  {
    assert ([w] + ws)[..|ws|] == [w] + ws[..|ws| - 1];
  }

  /** The first write first; only bytes and capacity matter for what becomes of them. */
  lemma {:induction false} ReplayFirst(f: File, g: File, w: Write, ws: seq<Write>)
    requires var h := Apply(f, w); g.bytes == h.bytes && g.cap == h.cap
    ensures var a, b := Replay(f, [w] + ws), Replay(g, ws); a.bytes == b.bytes && a.cap == b.cap
  {
    if ws == [] {
      assert [w][..0] == [] && [w] + ws == [w];
    } else {
      var init := ws[..|ws| - 1];
      ReplayFirst(f, g, w, init);
      ReplayLast(f, w, ws);
      ApplySame(Replay(f, [w] + init), Replay(g, init), ws[|ws| - 1]);
    }
  }

  /** What one write copies does not depend on what was copied before. */
  lemma CopiedAdds(f: File, w: Write)
    ensures Apply(f, w).copied == f.copied + Apply(File(f.bytes, f.cap, 0, 0), w).copied
  {
  }

  function Run(ws: seq<Write>): File {
    if ws == [] then Empty else Apply(Run(ws[..|ws| - 1]), ws[|ws| - 1])
  }

  /** The writes of a run that succeeded. */
  function Successes(ws: seq<Write>): seq<Write> {
    if ws == [] then []
    else
      var init, last := ws[..|ws| - 1], ws[|ws| - 1];
      Successes(init) + if Succeeds(Run(init), last) then [last] else []
  }

  /** What a file should hold: everything appended since the last replacement. */
  function Journal(ws: seq<Write>): seq<Byte> {
    if ws == [] then []
    else if ws[|ws| - 1].append then Journal(ws[..|ws| - 1]) + ws[|ws| - 1].data
    else ws[|ws| - 1].data
  }

  lemma ApplyBounded(f: File, w: Write)
    requires Bounded(f)
    ensures Bounded(Apply(f, w))
  {
    var needed := Base(f, w) + |w.data|;
    if f.cap < needed {
      NewCapOK(f.cap, needed);
    }
  }

  /** After any run: the contents are those of the successful writes in sequence, the capacity
      is 64 times a power of two and large enough, all copying ever done by regrowth amounts to
      at most the capacity, and past 64 bytes the capacity stays below twice the peak size. */
  lemma {:induction false} RunMeaning(ws: seq<Write>)
    ensures var f := Run(ws);
      && f.bytes == Journal(Successes(ws))
      && |f.bytes| <= f.cap && |f.bytes| <= f.peak && CapOK(f.cap)
      && f.copied <= f.cap
      && (FIRST_CAP < f.cap ==> f.cap < 2 * f.peak)
  {
    if ws != [] {
      var init, last := ws[..|ws| - 1], ws[|ws| - 1];
      var f := Run(init);
      RunMeaning(init);
      ApplyBounded(f, last);
      if Succeeds(f, last) {
        assert Successes(ws)[..|Successes(ws)| - 1] == Successes(init);
        assert f.bytes[..|f.bytes|] == f.bytes;
      } else {
        assert Successes(ws) == Successes(init);
      }
    }
  }
}
