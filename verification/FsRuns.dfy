/** Whole runs of filesystem calls, with any outcome of each allocation, between heap calls of
    other clients. The steps are those the methods of FsCalls are proved to take. */
module FsRuns {
  import opened Machine
  import opened Paths
  import opened TreeModel
  import opened TreeOps
  import opened TreeOwn
  import F = FileModel

  /** The tree, and every payload address the heap has handed out to anyone. */
  datatype State = State(t: Tree, live: set<Addr>)

  /** A call with its arguments and, where it allocates, the address the heap returns or 0; and
      the allocations and frees of everyone else. */
  datatype Op =
    | Create(cwd: Addr, path: seq<Char>, kind: Kind, a: Addr)
    | Write(file: Addr, data: seq<Byte>, append: bool, buf: Addr)
    | Remove(node: Addr, recursive: bool)
    | Relocate(node: Addr, dir: Addr, name: seq<Char>)
    | Take(a: Addr)
    | Give(a: Addr)

  ghost predicate Moves(t: Tree, root: Addr, n: Addr, np: Addr, name: seq<Char>)
    requires n in t && np in t
  {
    n != root && t[np].kind.Dir? && FindChild(t, t[np].kids, name) == 0 && !Under(t, np, n)
  }

  /** Nodes passed in are in the tree, a new address is one the heap does not have out, and others
      free only what is theirs. */
  ghost predicate Legal(s: State, root: Addr, op: Op) {
    match op
    case Create(cwd, path, kind, a) => root in s.t && cwd in s.t && (a != 0 ==> a !in s.live)
    case Write(file, data, append, buf) => file in s.t && (buf != 0 ==> buf !in s.live)
    case Remove(node, recursive) => node in s.t
    case Relocate(node, dir, name) => node in s.t && dir in s.t
    case Take(a) => a != 0 && a !in s.live
    case Give(a) => a in Foreign(s)
  }

  ghost function Step(s: State, root: Addr, op: Op): State
    requires Legal(s, root, op)
  {
    match op
    case Create(cwd, path, kind, a) =>
      var l := Follow(s.t, StartOf(root, cwd, path), Components(path), true);
      if l.node == 0 && l.parent in s.t && a != 0
      then State(Insert(s.t, l.parent, a, l.name, kind), s.live + {a}) else s
    case Write(file, data, append, buf) =>
      var w := F.Write(data, append, buf != 0);
      if s.t[file].kind.File? && F.Succeeds(AsFile(s.t[file]), w)
      then State(WriteTo(s.t, file, w, buf),
                 if Regrows(s.t[file], w) then s.live + {buf} - {s.t[file].data} else s.live)
      else s
    case Remove(node, recursive) =>
      if node != root && (s.t[node].kids != [] ==> recursive)
      then State(Delete(s.t, node), s.live - OwnedBy(s.t, Sub(s.t, node))) else s
    case Relocate(node, dir, name) =>
      if Moves(s.t, root, node, dir, name)
      then State(Move(s.t, node, dir, Truncated(name)), s.live) else s
    case Take(a) => State(s.t, s.live + {a})
    case Give(a) => State(s.t, s.live - {a})
  }

  ghost predicate LegalRun(s: State, root: Addr, ops: seq<Op>)
    decreases |ops|
  {
    ops != [] ==> Legal(s, root, ops[0]) && LegalRun(Step(s, root, ops[0]), root, ops[1..])
  }

  ghost function Run(s: State, root: Addr, ops: seq<Op>): State
    requires LegalRun(s, root, ops)
    decreases |ops|
  {
    if ops == [] then s else Run(Step(s, root, ops[0]), root, ops[1..])
  }

  /** A well-formed tree whose blocks are all live, each with one owner. */
  ghost predicate Inv(s: State, root: Addr) {
    Good(s.t, root) && Owned(s.t) <= s.live && 0 !in s.live
  }

  /** The blocks handed out to anyone but the filesystem. */
  ghost function Foreign(s: State): set<Addr> {
    s.live - Owned(s.t)
  }

  /** What one step means to the others: only their own calls change what they hold. */
  function Others(held: set<Addr>, op: Op): set<Addr> {
    match op
    case Take(a) => held + {a}
    case Give(a) => held - {a}
    case _ => held
  }

  function OthersAfter(held: set<Addr>, ops: seq<Op>): set<Addr>
    decreases |ops|
  {
    if ops == [] then held else OthersAfter(Others(held, ops[0]), ops[1..])
  }

  /** The step keeps the invariant and gives the others exactly what their call says. */
  ghost predicate Keeps(s: State, root: Addr, op: Op)
    requires Legal(s, root, op)
  {
    Inv(Step(s, root, op), root) && Foreign(Step(s, root, op)) == Others(Foreign(s), op)
  }

  lemma CreateStep(s: State, root: Addr, op: Op)
    requires Inv(s, root) && Legal(s, root, op) && op.Create?
    ensures Keeps(s, root, op)
  {
    var l := Follow(s.t, StartOf(root, op.cwd, op.path), Components(op.path), true);
    if l.node == 0 && l.parent in s.t && op.a != 0 {
      FollowTarget(s.t, root, StartOf(root, op.cwd, op.path), op.path);
      InsertGood(s.t, root, l.parent, op.a, l.name, op.kind);
    }
  }

  /** What a write that goes ahead does to the state. */
  lemma WriteTaken(s: State, root: Addr, op: Op, w: F.Write)
    requires Inv(s, root) && Legal(s, root, op) && op.Write? && w == F.Write(op.data, op.append, op.buf != 0)
    requires s.t[op.file].kind.File? && F.Succeeds(AsFile(s.t[op.file]), w)
    ensures Inv(Step(s, root, op), root) && Foreign(Step(s, root, op)) == Foreign(s)
  {
    WriteGood(s.t, root, op.file, w, op.buf);
    assert s.t[op.file].data == 0 || s.t[op.file].data in Owned(s.t);
    var s' := Step(s, root, op);
    assert forall x :: x in Foreign(s') <==> x in Foreign(s);
  }

  lemma WriteStep(s: State, root: Addr, op: Op)
    requires Inv(s, root) && Legal(s, root, op) && op.Write?
    ensures Keeps(s, root, op)
  {
    var w := F.Write(op.data, op.append, op.buf != 0);
    if s.t[op.file].kind.File? && F.Succeeds(AsFile(s.t[op.file]), w) {
      WriteTaken(s, root, op, w);
    }
  }

  lemma RemoveStep(s: State, root: Addr, op: Op)
    requires Inv(s, root) && Legal(s, root, op) && op.Remove?
    ensures Keeps(s, root, op)
  {
    if op.node != root {
      DeleteGood(s.t, root, op.node);
      assert OwnedBy(s.t, Sub(s.t, op.node)) <= Owned(s.t);
    }
  }

  lemma RelocateStep(s: State, root: Addr, op: Op)
    requires Inv(s, root) && Legal(s, root, op) && op.Relocate?
    ensures Keeps(s, root, op)
  {
    if Moves(s.t, root, op.node, op.dir, op.name) {
      MoveGood(s.t, root, op.node, op.dir, Truncated(op.name));
    }
  }

  lemma StepKeeps(s: State, root: Addr, op: Op)
    requires Inv(s, root) && Legal(s, root, op)
    ensures Inv(Step(s, root, op), root) && Foreign(Step(s, root, op)) == Others(Foreign(s), op)
  {
    match op
    case Create(_, _, _, _) => CreateStep(s, root, op);
    case Write(_, _, _, _) => WriteStep(s, root, op);
    case Remove(_, _) => RemoveStep(s, root, op);
    case Relocate(_, _, _) => RelocateStep(s, root, op);
    case Take(a) => assert a !in Owned(s.t);
    case Give(a) => assert a !in Owned(s.t);
  }

  /** After any run, whatever allocations failed, whatever names moves were given and whatever
      others did with the heap in between, the tree is well formed, every block it owns is live
      and owned once, and the others hold exactly what they took and did not give back; so when
      only the root is left, all that the filesystem allocated has been freed. */
  lemma {:induction false} RunKeeps(s: State, root: Addr, ops: seq<Op>)
    requires Inv(s, root) && LegalRun(s, root, ops)
    ensures Inv(Run(s, root, ops), root)
    ensures Foreign(Run(s, root, ops)) == OthersAfter(Foreign(s), ops)
    ensures Run(s, root, ops).t.Keys == {root} ==> Run(s, root, ops).live == OthersAfter(Foreign(s), ops) + {root}
    decreases |ops|
  {
    if ops != [] {
      StepKeeps(s, root, ops[0]);
      RunKeeps(Step(s, root, ops[0]), root, ops[1..]);
    } else if s.t.Keys == {root} {
      assert FileOK(s.t[root]);
      assert Owned(s.t) == {root};
    }
  }

  // ---- Names -----------------------------------------------------------------------

  /** Moves that go ahead leave names proper and siblings distinct. */
  ghost predicate NamesFit(s: State, root: Addr, op: Op) {
    op.Relocate? && op.node in s.t && op.dir in s.t && Moves(s.t, root, op.node, op.dir, op.name) ==>
      NameOK(Truncated(op.name)) && Unclashing(s.t, op.node, op.dir, Truncated(op.name))
  }

  /** The names of a tree in order stay so exactly when the name a move stores fits. */
  lemma NamesKeptIff(s: State, root: Addr, op: Op)
    requires Inv(s, root) && Legal(s, root, op) && Named(s.t, root)
    ensures Named(Step(s, root, op).t, root) <==> NamesFit(s, root, op)
  {
    match op
    case Create(cwd, path, kind, a) =>
      var l := Follow(s.t, StartOf(root, cwd, path), Components(path), true);
      if l.node == 0 && l.parent in s.t && a != 0 {
        FollowTarget(s.t, root, StartOf(root, cwd, path), path);
        InsertGood(s.t, root, l.parent, a, l.name, kind);
        InsertNamed(s.t, root, l.parent, a, l.name, kind);
      }
    case Write(file, data, append, buf) =>
      if s.t[file].kind.File? {
        WriteGood(s.t, root, file, F.Write(data, append, buf != 0), buf);
      }
    case Remove(node, recursive) =>
      if node != root {
        DeleteNamed(s.t, root, node);
      }
    case Relocate(node, dir, name) =>
      if Moves(s.t, root, node, dir, name) {
        MoveNamedIff(s.t, root, node, dir, Truncated(name));
      }
    case Take(_) =>
    case Give(_) =>
  }

  /** A name that may be stored as it is always fits. */
  lemma ProperNamesFit(s: State, root: Addr, op: Op)
    requires Inv(s, root) && (op.Relocate? ==> NameOK(op.name))
    ensures NamesFit(s, root, op)
  {
    if op.Relocate? && op.dir in s.t {
      assert DownOK(s.t, op.dir);
      assert forall k :: k in s.t[op.dir].kids ==> k in s.t && k != 0;
    }
  }

  /** So over a run whose moves have names that may be stored, all names stay in order. */
  lemma {:induction false} RunKeepsNames(s: State, root: Addr, ops: seq<Op>)
    requires Inv(s, root) && LegalRun(s, root, ops) && Named(s.t, root)
    requires forall op :: op in ops && op.Relocate? ==> NameOK(op.name)
    ensures Named(Run(s, root, ops).t, root)
    decreases |ops|
  {
    if ops != [] {
      StepKeeps(s, root, ops[0]);
      ProperNamesFit(s, root, ops[0]);
      NamesKeptIff(s, root, ops[0]);
      RunKeepsNames(Step(s, root, ops[0]), root, ops[1..]);
    }
  }

  // ---- Contents --------------------------------------------------------------------

  /** Node `a` is in the tree before, during and after the run. */
  ghost predicate Survives(s: State, root: Addr, ops: seq<Op>, a: Addr)
    requires LegalRun(s, root, ops)
    decreases |ops|
  {
    a in s.t && (ops != [] ==> Survives(Step(s, root, ops[0]), root, ops[1..], a))
  }

  /** The writes of a run that are addressed to `a`. */
  function WritesTo(ops: seq<Op>, a: Addr): seq<F.Write>
    decreases |ops|
  {
    if ops == [] then []
    else
      (match ops[0]
       case Write(file, data, append, buf) => if file == a then [F.Write(data, append, buf != 0)] else []
       case _ => [])
      + WritesTo(ops[1..], a)
  }

  /** A file's bytes and capacity are those of `f`. */
  ghost predicate IsFile(r: Rec, f: F.File) {
    r.kind.File? && r.bytes == f.bytes && r.cap == f.cap
  }

  /** What one call makes of file `a`. */
  function After(r: Rec, op: Op, a: Addr): F.File {
    if op.Write? && op.file == a then F.Apply(AsFile(r), F.Write(op.data, op.append, op.buf != 0)) else AsFile(r)
  }

  lemma StepContents(s: State, root: Addr, op: Op, a: Addr)
    requires Inv(s, root) && Legal(s, root, op) && a in s.t && a in Step(s, root, op).t
    ensures var r, r' := s.t[a], Step(s, root, op).t[a];
      && r'.kind == r.kind
      && (r.kind.File? ==> IsFile(r', After(r, op, a)))
  {
    match op
    case Create(cwd, path, kind, b) =>
      var l := Follow(s.t, StartOf(root, cwd, path), Components(path), true);
      if l.node == 0 && l.parent in s.t && b != 0 {
        ContentsKept(s.t, root, a, l.parent, b, l.name, kind);
        assert b !in Owned(s.t);
      }
    case Remove(n, _) => ContentsKept(s.t, root, n, n, n, [], File);
    case Relocate(n, dir, name) =>
      ContentsKept(s.t, root, n, dir, n, Truncated(name), File);
    case _ =>
  }

  lemma ReplayOps(ops: seq<Op>, a: Addr, r: Rec, r': Rec, last: Rec)
    requires ops != [] && r.kind.File? && IsFile(r', After(r, ops[0], a))
    requires IsFile(last, F.Replay(AsFile(r'), WritesTo(ops[1..], a)))
    ensures IsFile(last, F.Replay(AsFile(r), WritesTo(ops, a)))
  {
    var rest := WritesTo(ops[1..], a);
    if ops[0].Write? && ops[0].file == a {
      F.ReplayFirst(AsFile(r), AsFile(r'), F.Write(ops[0].data, ops[0].append, ops[0].buf != 0), rest);
    } else {
      assert AsFile(r') == AsFile(r) && WritesTo(ops, a) == rest;
    }
  }

  /** Whatever else a run does, a file that stays in the tree holds at its end just what the writes
      addressed to it, in order, make of what it held before. */
  lemma {:induction false} RunContents(s: State, root: Addr, ops: seq<Op>, a: Addr)
    requires Inv(s, root) && LegalRun(s, root, ops) && Survives(s, root, ops, a)
    ensures a in Run(s, root, ops).t && Run(s, root, ops).t[a].kind == s.t[a].kind
    ensures s.t[a].kind.File? ==> IsFile(Run(s, root, ops).t[a], F.Replay(AsFile(s.t[a]), WritesTo(ops, a)))
    decreases |ops|
  {
    if ops != [] {
      var s' := Step(s, root, ops[0]);
      StepKeeps(s, root, ops[0]);
      StepContents(s, root, ops[0], a);
      RunContents(s', root, ops[1..], a);
      if s.t[a].kind.File? {
        ReplayOps(ops, a, s.t[a], s'.t[a], Run(s', root, ops[1..]).t[a]);
      }
    }
  }

  /** So a file that was empty holds everything appended since the last replacement. */
  lemma NewFileContents(s: State, root: Addr, ops: seq<Op>, a: Addr)
    requires Inv(s, root) && LegalRun(s, root, ops) && Survives(s, root, ops, a)
    requires s.t[a].kind.File? && s.t[a].bytes == [] && s.t[a].cap == 0
    ensures a in Run(s, root, ops).t
    ensures Run(s, root, ops).t[a].bytes == F.Journal(F.Successes(WritesTo(ops, a)))
  {
    RunContents(s, root, ops, a);
    F.ReplayRun(WritesTo(ops, a));
    F.RunMeaning(WritesTo(ops, a));
  }
}
