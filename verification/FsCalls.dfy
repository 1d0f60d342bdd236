/** Every call on the linked filesystem is one step of the runs in FsRuns. */
module FsCalls {
  import opened Machine
  import opened TreeModel
  import opened TreeOps
  import opened TreeOwn
  import opened FsHeap
  import opened Ramfs
  import R = FsRuns
  import F = FileModel
  import HM = HeapModel
  import H = Heap

  /** The abstract state of a filesystem and its heap. */
  ghost function StateOf(fs: Fs): R.State
    reads fs, fs.heap
  {
    R.State(fs.t, fs.heap.Ptrs())
  }

  /** ramfs_create as a step: `op` records the call and the address the heap gave it. */
  method Create(fs: Fs, cwd: Node, path: seq<Char>, kind: Kind) returns (n: Node?, ghost op: R.Op)
    requires fs.Valid() && fs.Has(cwd)
    modifies fs`t, fs`at, fs`nodes, fs.nodes, fs.heap`blocks, fs.heap.mem
    ensures fs.Valid() && (n != null ==> fs.Has(n))
    ensures op == R.Create(cwd.addr, path, kind, if n == null then 0 else n.addr)
    ensures R.Legal(old(StateOf(fs)), fs.root.addr, op)
    ensures StateOf(fs) == R.Step(old(StateOf(fs)), fs.root.addr, op)
  {
    n := fs.Create(cwd, path, kind);
    op := R.Create(cwd.addr, path, kind, if n == null then 0 else n.addr);
  }

  /** A larger buffer is asked for only when one is needed, so it is granted exactly when the write
      goes ahead with one; which buffer matters only then. */
  lemma Granted(t: Tree, a: Addr, w: F.Write, b: Addr, c: Addr)
    requires a in t && (w.granted ==> Regrows(t[a], w)) && (w.granted ==> b == c)
    ensures w.granted <==> F.Succeeds(AsFile(t[a]), w) && Regrows(t[a], w)
    ensures WriteTo(t, a, w, b) == WriteTo(t, a, w, c)
  {
  }

  /** ramfs_write as a step. */
  method Write(fs: Fs, file: Node, data: seq<Byte>, append: bool) returns (ok: bool, ghost op: R.Op)
    requires fs.Valid() && fs.Has(file) && fs.Growable(file.addr, data, append)
    modifies fs`t, fs.nodes, fs.heap`blocks, fs.heap.mem
    ensures fs.Valid()
    ensures op.Write? && op.file == file.addr && op.data == data && op.append == append
    ensures R.Legal(old(StateOf(fs)), fs.root.addr, op)
    ensures StateOf(fs) == R.Step(old(StateOf(fs)), fs.root.addr, op)
  {
    ghost var r, w := fs.t[file.addr], fs.WriteOp(file.addr, data, append);
    ghost var grows := r.kind.File? && w.granted;
    assert fs.NodeOK(file.addr) && file.data == r.data;
    ghost var copied;
    ok, copied := fs.Write(file, data, append);
    op := R.Write(file.addr, data, append, if grows then file.data else 0);
    if r.kind.File? {
      Granted(old(fs.t), file.addr, w, op.buf, file.data);
      assert F.Write(data, append, op.buf != 0) == w;
    }
  }

  /** ramfs_delete as a step. */
  method Remove(fs: Fs, node: Node, recursive: bool) returns (ok: bool, ghost op: R.Op)
    requires fs.Valid() && fs.Has(node)
    modifies fs`t, fs`at, fs.nodes, fs.heap`blocks, fs.heap.mem
    ensures fs.Valid()
    ensures op == R.Remove(node.addr, recursive)
    ensures R.Legal(old(StateOf(fs)), fs.root.addr, op)
    ensures StateOf(fs) == R.Step(old(StateOf(fs)), fs.root.addr, op)
  {
    ok := fs.Delete(node, recursive);
    op := R.Remove(node.addr, recursive);
  }

  /** ramfs_move as a step, whatever the name. */
  method Relocate(fs: Fs, node: Node, dir: Node, name: seq<Char>) returns (ok: bool, ghost op: R.Op)
    requires fs.Valid() && fs.Has(node) && fs.Has(dir)
    modifies fs`t, fs.nodes
    ensures fs.Valid()
    ensures op == R.Relocate(node.addr, dir.addr, name)
    ensures R.Legal(old(StateOf(fs)), fs.root.addr, op)
    ensures StateOf(fs) == R.Step(old(StateOf(fs)), fs.root.addr, op)
  {
    ok := fs.Move(node, dir, name);
    op := R.Relocate(node.addr, dir.addr, name);
  }

  // ---- Other clients of the heap -----------------------------------------------------

  /** kmalloc by someone else leaves the filesystem valid, and gives out none of its blocks. */
  method Take(fs: Fs, request: Word) returns (p: Word, ghost op: R.Op)
    requires fs.Valid()
    modifies fs.heap`blocks, fs.heap.mem
    ensures fs.Valid() && fs.t == old(fs.t)
    ensures p == 0 ==> StateOf(fs) == old(StateOf(fs))
    ensures p != 0 ==>
      && op == R.Take(p) && R.Legal(old(StateOf(fs)), fs.root.addr, op)
      && StateOf(fs) == R.Step(old(StateOf(fs)), fs.root.addr, op)
  {
    p := fs.heap.Kmalloc(request);
    op := R.Take(p);
    AllHeldKept(fs.t, old(HM.Live(fs.heap.blocks)), HM.Live(fs.heap.blocks), old(fs.heap.mem[..]), fs.heap.mem[..],
                fs.heap.start);
  }

  /** kfree of a block that is not the filesystem's leaves it valid. */
  method Give(fs: Fs, p: Word) returns (ghost op: R.Op)
    requires fs.Valid() && p in fs.heap.Ptrs() - Owned(fs.t)
    modifies fs.heap`blocks, fs.heap.mem
    ensures fs.Valid() && fs.t == old(fs.t)
    ensures op == R.Give(p) && R.Legal(old(StateOf(fs)), fs.root.addr, op)
    ensures StateOf(fs) == R.Step(old(StateOf(fs)), fs.root.addr, op)
  {
    ghost var live0, m0 := HM.Live(fs.heap.blocks), fs.heap.mem[..];
    Release(fs.heap, p);
    op := R.Give(p);
    HeldWithout(fs.t, p, live0, m0, HM.Live(fs.heap.blocks), fs.heap.mem[..], fs.heap.start);
  }

  /** What a tree stores survives the freeing of a block that it does not own. */
  lemma HeldWithout(t: Tree, p: Addr, live0: set<HM.Block>, m0: seq<Word>, live1: set<HM.Block>, m1: seq<Word>,
                    start: Word)
    requires AllHeld(t, live0, m0, start) && FreedOnly(live0, m0, live1, m1, start, {p}) && p !in Owned(t)
    ensures AllHeld(t, live1, m1, start)
  {
    assert live0 * live1 == live1;
    AllHeldKept(t, live0, live1, m0, m1, start);
  }

  /** A byte stored in someone else's block leaves the filesystem, file contents and all, as it was. */
  method Store(fs: Fs, p: Word, k: nat, v: Byte, ghost g: HM.Block)
    requires fs.Valid() && g in HM.Live(fs.heap.blocks) && p == fs.heap.Payload(g) && p !in Owned(fs.t)
    requires k < 4 * g.len
    modifies fs.heap.mem
    ensures fs.Valid() && StateOf(fs) == old(StateOf(fs))
  {
    fs.heap.StoreByte(p, k, v, g);
    HeldBeside(fs.t, g, HM.Live(fs.heap.blocks), old(fs.heap.mem[..]), fs.heap.mem[..], fs.heap.start);
  }

  /** What a tree stores survives a change to one block that it does not own. */
  lemma HeldBeside(t: Tree, g: HM.Block, live: set<HM.Block>, m0: seq<Word>, m1: seq<Word>, start: Word)
    requires AllHeld(t, live, m0, start) && H.Kept(live - {g}, m0, m1)
    requires H.Addr(start, g.at + HM.HEADER) !in Owned(t)
    ensures AllHeld(t, live, m1, start)
  {
    forall a | a in t ensures Stored(live, m1, start, t[a]) {
      assert Stored(live, m0, start, t[a]);
      if t[a].data != 0 {
        assert t[a].data in Owned(t);
        var b :| H.Holds(live, start, t[a].data, t[a].cap, b) && BufferIs(m0, b, t[a].bytes);
        BufferKept(live - {g}, m0, m1, b, t[a].bytes);
      }
    }
    assert forall a {:trigger NodeHeld(live, start, a)} :: a in t ==> NodeHeld(live, start, a);
  }
}
