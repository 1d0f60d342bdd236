/** shell/commands.c: splitting a path into directory and name, and the mv command. */
module Shell {
  import opened Machine
  import opened Paths
  import opened TreeModel
  import opened TreeOps
  import opened TreePaths
  import opened Ramfs
  import opened Slices

  // ---- split_parent on trees -------------------------------------------------------

  /** Position of the last '/' among the first `n` bytes, or -1 without one. */
  function LastSlashIn(path: seq<Char>, n: nat): (s: int)
    requires n <= |path|
    ensures -1 <= s < n
    ensures 0 <= s ==> path[s] == SLASH
    ensures forall k :: s < k < n ==> path[k] != SLASH
  {
    if n == 0 then -1 else if path[n - 1] == SLASH then n - 1 else LastSlashIn(path, n - 1)
  }

  function LastSlash(path: seq<Char>): int {
    LastSlashIn(path, |path|)
  }

  function SplitName(path: seq<Char>): seq<Char> {
    path[LastSlash(path) + 1..]
  }

  /** The directory half of split_parent; 0 when it does not resolve or is too long. */
  function SplitDir(t: Tree, root: Addr, cwd: Addr, path: seq<Char>): Addr {
    var s := LastSlash(path);
    if s < 0 then cwd
    else if s == 0 then root
    else if PATH_MAX <= s then 0
    else TreeModel.Resolve(t, root, cwd, path[..s])
  }

  /** What comes before the last slash. */
  function Front(path: seq<Char>): seq<Char> {
    if LastSlash(path) < 0 then [] else path[..LastSlash(path)]
  }

  lemma SplitParts(path: seq<Char>)
    ensures SLASH !in SplitName(path)
    ensures path == (if LastSlash(path) < 0 then SplitName(path) else Front(path) + [SLASH] + SplitName(path))
    ensures LastSlash(path) < 0 ==> SLASH !in path
  {
    assert LastSlash(path) < 0 ==> path[0..] == path;
  }

  lemma NameComponents(front: seq<Char>, name: seq<Char>)
    requires SLASH !in name && name != []
    ensures Components(name) == [name]
    ensures Components(front + [SLASH] + name) == Components(front) + [name]
  {
    ComponentsHead(name, []);
    assert name + [] == name;
    ComponentsJoin(front, name);
  }

  /** A path is its directory part and its last name. */
  lemma SplitComponents(path: seq<Char>)
    requires SplitName(path) != []
    ensures Components(path) == Components(Front(path)) + [SplitName(path)]
  {
    SplitParts(path);
    NameComponents(Front(path), SplitName(path));
  }

  lemma WalkLastName(t: Tree, root: Addr, from: Addr, cs: seq<seq<Char>>, name: seq<Char>)
    requires Shape(t, root)
    ensures TreeModel.Walk(t, from, cs + [name]) ==
      if TreeModel.Walk(t, from, cs) in t then Step(t, TreeModel.Walk(t, from, cs), name) else 0
    ensures TreeModel.Walk(t, from, cs) in t <==> TreeModel.Walk(t, from, cs) != 0
  {
    WalkConcat(t, root, from, cs, [name]);
    var d := TreeModel.Walk(t, from, cs);
    if d in t {
      StepInTree(t, root, d, name);
    }
  }

  /** Whether the splitting of create and the splitting of mv come to the same thing. */
  ghost predicate Agree(t: Tree, root: Addr, cwd: Addr, path: seq<Char>)
    requires cwd in t && root in t
  {
    var l := Follow(t, StartOf(root, cwd, path), Components(path), true);
    var dir := SplitDir(t, root, cwd, path);
    && (l.parent != 0 <==> dir != 0 && dir in t && t[dir].kind.Dir?)
    && (l.parent != 0 ==> l.parent == dir && l.name == SplitName(path))
  }

  lemma TrailingSlash(path: seq<Char>)
    requires SplitName(path) == []
    ensures Components(path) == Components(Front(path))
  {
    SplitParts(path);
    if 0 <= LastSlash(path) {
      ComponentsJoin(Front(path), []);
      assert Front(path) + [SLASH] + [] == Front(path) + [SLASH];
      assert Components(Front(path)) + [] == Components(Front(path));
    }
  }

  /** split_parent resolves the front part, when it is not too long. */
  lemma SplitDirWalks(t: Tree, root: Addr, cwd: Addr, path: seq<Char>)
    requires Shape(t, root) && cwd in t && LastSlash(path) < PATH_MAX
    ensures SplitDir(t, root, cwd, path) == TreeModel.Walk(t, StartOf(root, cwd, path), Components(Front(path)))
  {
    var s := LastSlash(path);
    SplitParts(path);
    if 0 < s {
      assert Front(path)[0] == path[0];
    }
  }

  /** Resolving the directory part of a path gives a directory. */
  predicate FrontIsDir(t: Tree, root: Addr, cwd: Addr, path: seq<Char>) {
    var d := TreeModel.Resolve(t, root, cwd, Front(path));
    d != 0 && d in t && t[d].kind.Dir?
  }

  /** What create finds: the directory that the front part leads to, if it is one, and the name. */
  lemma ParentFound(t: Tree, root: Addr, from: Addr, front: seq<seq<Char>>, name: seq<Char>)
    requires Shape(t, root) && from in t && NameOK(name)
    ensures var d := TreeModel.Walk(t, from, front);
      Follow(t, from, front + [name], true) == Last(
        TreeModel.Walk(t, from, front + [name]),
        if d in t && t[d].kind.Dir? then d else 0,
        if d in t && t[d].kind.Dir? then name else [])
    ensures 0 !in t
  {
    FollowMeaning(t, root, from, front + [name], true);
    assert Init(front + [name]) == front;
  }

  /** For a path that ends in a proper name, split_parent and walk with parent_out yield the
      same directory and name exactly when the directory part is under 256 bytes long, or does
      not lead to a directory. */
  lemma SplitAgreesIff(t: Tree, root: Addr, cwd: Addr, path: seq<Char>)
    requires Shape(t, root) && cwd in t && NameOK(SplitName(path))
    ensures Agree(t, root, cwd, path) <==> LastSlash(path) < PATH_MAX || !FrontIsDir(t, root, cwd, path)
  {
    var from := StartOf(root, cwd, path);
    SplitComponents(path);
    ParentFound(t, root, from, Components(Front(path)), SplitName(path));
    if LastSlash(path) < PATH_MAX {
      SplitDirWalks(t, root, cwd, path);
    } else {
      assert Front(path)[0] == path[0];
    }
  }

  /** They always agree on what fits a line of the shell. */
  lemma ShortPathsAgree(t: Tree, root: Addr, cwd: Addr, path: seq<Char>)
    requires Shape(t, root) && cwd in t && NameOK(SplitName(path)) && |path| <= PATH_MAX
    ensures Agree(t, root, cwd, path)
  {
    SplitAgreesIff(t, root, cwd, path);
  }

  lemma {:induction false} SlashesAreRoot(n: nat)
    ensures Components(Repeat(SLASH, n)) == []
  {
    if n != 0 {
      SlashesAreRoot(n - 1);
      ComponentsJoin(Repeat(SLASH, n - 1), []);
      assert Repeat(SLASH, n - 1) + [SLASH] + [] == Repeat(SLASH, n);
    }
  }

  lemma {:induction false} LastSlashIs(path: seq<Char>, s: nat, n: nat)
    requires s < n <= |path| && path[s] == SLASH && forall k :: s < k < n ==> path[k] != SLASH
    ensures LastSlashIn(path, n) == s
    decreases n
  {
    if s < n - 1 {
      LastSlashIs(path, s, n - 1);
    }
  }

  /** They do disagree: in every tree, "a" in the root under 257 slashes can be created, while
      split_parent finds no directory for it. */
  lemma SplitDisagrees(t: Tree, root: Addr, cwd: Addr)
    requires Shape(t, root) && cwd in t
    ensures var path := Repeat(SLASH, 257) + [97];
      && !Agree(t, root, cwd, path)
      && SplitDir(t, root, cwd, path) == 0
      && Follow(t, StartOf(root, cwd, path), Components(path), true).parent == root
  {
    var path := Repeat(SLASH, 257) + [97];
    SlashesAreRoot(256);
    LastSlashIs(path, 256, |path|);
    assert SplitName(path) == [97];
    assert Front(path) == Repeat(SLASH, 256);
    assert path[0] == SLASH && NameOK([97]);
    SplitComponents(path);
    SplitAgreesIff(t, root, cwd, path);
    FollowMeaning(t, root, root, Components(path), true);
    assert Components(path) == [[97]] && Init([[97]]) == [];
  }

  // ---- mv ------------------------------------------------------------------------

  /** Any suffix of a path that does not resolve, below a directory part that does, is a name
      one could store, but for its length. */
  lemma MissingName(t: Tree, root: Addr, cwd: Addr, path: seq<Char>)
    requires Shape(t, root) && cwd in t
    requires TreeModel.Resolve(t, root, cwd, path) == 0 && SplitDir(t, root, cwd, path) != 0
    ensures SplitName(path) != [] && SLASH !in SplitName(path) && Plain(SplitName(path))
    ensures NameOK(Truncated(SplitName(path)))
  {
    var name, from, front := SplitName(path), StartOf(root, cwd, path), Components(Front(path));
    SplitParts(path);
    SplitDirWalks(t, root, cwd, path);
    if name == [] {
      TrailingSlash(path);
    } else {
      SplitComponents(path);
      WalkLastName(t, root, from, front, name);
      assert forall c :: c in Truncated(name) ==> c in name;
    }
  }

  /** What mv asks ramfs_move for: a node, a directory and a name, if it gets that far. */
  datatype Plan = Plan(node: Addr, dir: Addr, name: seq<Char>) | NoPlan

  function MvPlan(t: Tree, root: Addr, cwd: Addr, src: seq<Char>, dst: seq<Char>): Plan {
    var n := TreeModel.Resolve(t, root, cwd, src);
    if n == 0 || n !in t then NoPlan else PlanFor(t, root, cwd, n, dst)
  }

  function PlanFor(t: Tree, root: Addr, cwd: Addr, n: Addr, dst: seq<Char>): Plan
    requires n in t
  {
    var d := TreeModel.Resolve(t, root, cwd, dst);
    var dir := SplitDir(t, root, cwd, dst);
    if d != 0 && d in t then
      if t[d].kind.Dir? then Plan(n, d, t[n].name) else NoPlan
    else if dir != 0 && dir in t && t[dir].kind.Dir? then Plan(n, dir, SplitName(dst))
    else NoPlan
  }

  /** ramfs_move goes ahead with a plan. */
  ghost predicate Moves(t: Tree, root: Addr, p: Plan) {
    p.Plan? && p.node in t && p.dir in t && p.node != root && t[p.dir].kind.Dir?
    && TreeModel.FindChild(t, t[p.dir].kids, p.name) == 0 && !Under(t, p.dir, p.node)
  }

  ghost function MvTree(t: Tree, p: Plan): Tree
    requires p.Plan? && p.node in t && p.dir in t
  {
    TreeOps.Move(t, p.node, p.dir, Truncated(p.name))
  }

  /** `n` can go into `d` under `name`: `d` is a directory outside of what `n` holds, with no child
      of that name. */
  ghost predicate Receives(t: Tree, root: Addr, n: Addr, d: Addr, name: seq<Char>) {
    && n in t && n != root && d in t && t[d].kind.Dir? && !Under(t, d, n)
    && forall k :: k in t[d].kids ==> k in t && t[k].name != name
  }

  /** mv goes ahead exactly when the source resolves and either the destination resolves to a
      directory that receives the source under its own name, or it does not resolve and its front,
      of at most 255 bytes, leads to a directory that receives it under the name behind the last
      slash. */
  lemma MvMovesIff(t: Tree, root: Addr, cwd: Addr, src: seq<Char>, dst: seq<Char>)
    requires Shape(t, root) && cwd in t
    ensures var n, d := TreeModel.Resolve(t, root, cwd, src), TreeModel.Resolve(t, root, cwd, dst);
      var e := TreeModel.Walk(t, StartOf(root, cwd, dst), Components(Front(dst)));
      var p := MvPlan(t, root, cwd, src, dst);
      && (Moves(t, root, p) <==>
            && n != 0
            && if d != 0 then Receives(t, root, n, d, t[n].name)
               else LastSlash(dst) < 256 && Receives(t, root, n, e, SplitName(dst)))
      && (Moves(t, root, p) ==> p == if d != 0 then Plan(n, d, t[n].name) else Plan(n, e, SplitName(dst)))
  {
    var n, d := TreeModel.Resolve(t, root, cwd, src), TreeModel.Resolve(t, root, cwd, dst);
    if LastSlash(dst) < 256 {
      SplitDirWalks(t, root, cwd, dst);
    }
    var p := MvPlan(t, root, cwd, src, dst);
    if n != 0 && p.Plan? {
      ReceivesIff(t, root, n, p.dir, p.name);
    }
  }

  lemma ReceivesIff(t: Tree, root: Addr, n: Addr, d: Addr, name: seq<Char>)
    requires Shape(t, root) && n in t && d in t
    ensures Receives(t, root, n, d, name) <==> Moves(t, root, Plan(n, d, name))
  {
    assert DownOK(t, d);
  }

  /** mv always stores a proper name, and the tree keeps its names in order exactly when the
      name, cut to the 31 bytes that are stored, is not that of another child. */
  lemma MvNamedIff(t: Tree, root: Addr, cwd: Addr, src: seq<Char>, dst: seq<Char>)
    requires Shape(t, root) && Named(t, root) && cwd in t
    requires Moves(t, root, MvPlan(t, root, cwd, src, dst))
    ensures var p := MvPlan(t, root, cwd, src, dst);
      && Shape(MvTree(t, p), root)
      && (Named(MvTree(t, p), root) <==> Unclashing(t, p.node, p.dir, Truncated(p.name)))
      && (|p.name| < NAME_MAX ==> Named(MvTree(t, p), root))
  {
    var p := MvPlan(t, root, cwd, src, dst);
    var d := TreeModel.Resolve(t, root, cwd, dst);
    MoveShape(t, root, p.node, p.dir, Truncated(p.name));
    MoveNamedIff(t, root, p.node, p.dir, Truncated(p.name));
    assert NameOK(Truncated(p.name)) by {
      if d == 0 {
        MissingName(t, root, cwd, dst);
      } else {
        assert NameOK(t[p.node].name);
      }
    }
    assert DownOK(t, p.dir);
    assert forall k :: k in t[p.dir].kids ==> k in t && k != 0;
  }

  /** Without "..", a step goes to the node itself or to one of its children. */
  lemma {:induction false} WalkGoesDown(t: Tree, root: Addr, cur: Addr, cs: seq<seq<Char>>)
    requires Shape(t, root) && cur in t && DOTDOT !in cs && TreeModel.Walk(t, cur, cs) != 0
    ensures Under(t, TreeModel.Walk(t, cur, cs), cur)
    decreases |cs|
  {
    if cs != [] {
      var next := Step(t, cur, cs[0]);
      WalkGoesDown(t, root, next, cs[1..]);
      if next != cur {
        KidFacts(t, root, cur, next);
        UnderTrans(t, TreeModel.Walk(t, cur, cs), next, cur);
      }
    }
  }

  /** So a walk that meets a node without ".." ends at or below it. */
  lemma {:induction false} VisitsEndUnder(t: Tree, root: Addr, cur: Addr, cs: seq<seq<Char>>, n: Addr)
    requires Shape(t, root) && cur in t && DOTDOT !in cs && TreeModel.Walk(t, cur, cs) != 0
    requires Visits(t, cur, cs, n)
    ensures Under(t, TreeModel.Walk(t, cur, cs), n)
    decreases |cs|
  {
    if cur == n {
      WalkGoesDown(t, root, cur, cs);
    } else {
      VisitsEndUnder(t, root, Step(t, cur, cs[0]), cs[1..], n);
    }
  }

  /** Where the moved node is to be found: at the destination, or in it when it is a directory. */
  function Arrival(t: Tree, root: Addr, cwd: Addr, dst: seq<Char>, name: seq<Char>): seq<Char> {
    if TreeModel.Resolve(t, root, cwd, dst) == 0 then dst
    else if dst == [] then name
    else dst + [SLASH] + name
  }

  /** The components of that path are a way to the new parent, and the new name. */
  lemma ArrivalParts(t: Tree, root: Addr, cwd: Addr, n: Addr, dst: seq<Char>)
      returns (from: Addr, front: seq<seq<Char>>)
    requires Shape(t, root) && Named(t, root) && cwd in t && n in t && n != root
    requires PlanFor(t, root, cwd, n, dst).Plan?
    ensures var p := PlanFor(t, root, cwd, n, dst);
      var path := Arrival(t, root, cwd, dst, p.name);
      && from in t && from == StartOf(root, cwd, path) && Components(path) == front + [p.name]
      && TreeModel.Walk(t, from, front) == p.dir && (forall c :: c in front ==> c in Components(dst))
  {
    var p := PlanFor(t, root, cwd, n, dst);
    if TreeModel.Resolve(t, root, cwd, dst) == 0 {
      MissingName(t, root, cwd, dst);
      SplitComponents(dst);
      SplitDirWalks(t, root, cwd, dst);
      from, front := StartOf(root, cwd, dst), Components(Front(dst));
    } else {
      assert NameOK(t[n].name);
      NameComponents(dst, t[n].name);
      from, front := StartOf(root, cwd, dst), Components(dst);
      assert front == [] ==> [] + [p.name] == [p.name];
    }
  }

  /** After mv the destination leads to the moved node (or the node's name does inside it, when
      it is a directory) exactly when the name has at most 31 bytes and the way to the new
      directory did not run through the node's old place. */
  lemma MvArrivesIff(t: Tree, root: Addr, cwd: Addr, src: seq<Char>, dst: seq<Char>)
    requires Shape(t, root) && Named(t, root) && cwd in t
    requires Moves(t, root, MvPlan(t, root, cwd, src, dst))
    requires var p := MvPlan(t, root, cwd, src, dst);
      StartOf(root, cwd, Arrival(t, root, cwd, dst, p.name)) !in Sub(t, p.node)
    ensures var p := MvPlan(t, root, cwd, src, dst);
      var path := Arrival(t, root, cwd, dst, p.name);
      && Components(path) != []
      && (TreeModel.Resolve(MvTree(t, p), root, cwd, path) == p.node <==>
            |p.name| < NAME_MAX
            && !Visits(t, StartOf(root, cwd, path), Init(Components(path)), p.node))
  {
    var p := MvPlan(t, root, cwd, src, dst);
    var t' := MvTree(t, p);
    MvNamedIff(t, root, cwd, src, dst);
    var from, front := ArrivalParts(t, root, cwd, p.node, dst);
    assert Init(front + [p.name]) == front;
    WalkLastName(t', root, from, front, p.name);
    if |p.name| < NAME_MAX {
      MoveNamedIff(t, root, p.node, p.dir, p.name);
      if Visits(t, from, front, p.node) {
        MoveForgetsWalks(t, root, p.node, p.dir, p.name, from, front);
      } else {
        MoveKeepsAway(t, root, p.node, p.dir, p.name, from, front);
        MoveArrives(t, root, p.node, p.dir, p.name);
      }
    }
  }

  /** So it does for every name of at most 31 bytes when the destination has no "..". */
  lemma MvArrives(t: Tree, root: Addr, cwd: Addr, src: seq<Char>, dst: seq<Char>)
    requires Shape(t, root) && Named(t, root) && cwd in t
    requires Moves(t, root, MvPlan(t, root, cwd, src, dst))
    requires DOTDOT !in Components(dst) && |MvPlan(t, root, cwd, src, dst).name| < NAME_MAX
    ensures var p := MvPlan(t, root, cwd, src, dst);
      TreeModel.Resolve(MvTree(t, p), root, cwd, Arrival(t, root, cwd, dst, p.name)) == p.node
  {
    var p := MvPlan(t, root, cwd, src, dst);
    var from, front := ArrivalParts(t, root, cwd, p.node, dst);
    if Visits(t, from, front, p.node) {
      VisitsEndUnder(t, root, from, front, p.node);
    }
    if from in Sub(t, p.node) {
      WalkGoesDown(t, root, from, front);
      UnderTrans(t, p.dir, from, p.node);
    }
    assert Init(front + [p.name]) == front;
    MvArrivesIff(t, root, cwd, src, dst);
  }

  /** A root with one directory "a". */
  function OneDir(): Tree {
    map[1 := Rec([], Dir, 0, [2], 0, 0, [], 0), 2 := Rec([97], Dir, 1, [], 1, 0, [], 0)]
  }

  lemma OneDirSteps()
    ensures var t := OneDir();
      && Shape(t, 1) && Named(t, 1) && t[1].kids == [2]
      && Step(t, 1, [97]) == 2 && Step(t, 2, DOTDOT) == 1 && Step(t, 1, [98]) == 0
  {
    var t := OneDir();
    assert UpOK(t, 2) && DownOK(t, 1) && DownOK(t, 2);
    assert t[1].kids[1..] == [];
  }

  /** "a/../b" */
  function AroundPath(): seq<Char> {
    [97, SLASH, 46, 46, SLASH, 98]
  }

  lemma AroundSplit()
    ensures var dst := AroundPath();
      && LastSlash(dst) == 4 && SplitName(dst) == [98] && Front(dst) == [97] + [SLASH] + DOTDOT
  {
    LastSlashIs(AroundPath(), 4, |AroundPath()|);
  }

  lemma AroundFront()
    ensures Components([97] + [SLASH] + DOTDOT) == [[97], DOTDOT]
  {
    NameComponents([97], DOTDOT);
    NameComponents([], [97]);
  }

  lemma AroundParts()
    ensures var dst := AroundPath();
      && SplitName(dst) == [98] && Components(Front(dst)) == [[97], DOTDOT]
      && LastSlash(dst) == 4 && Components(dst) == [[97], DOTDOT, [98]]
  {
    AroundSplit();
    AroundFront();
    SplitComponents(AroundPath());
  }

  lemma AroundWalks()
    ensures var t := OneDir();
      && TreeModel.Walk(t, 1, [[97]]) == 2
      && TreeModel.Walk(t, 1, [[97], DOTDOT]) == 1 && TreeModel.Walk(t, 1, [[97], DOTDOT, [98]]) == 0
  {
    var t := OneDir();
    OneDirSteps();
    WalkLastName(t, 1, 1, [], [97]);
    assert [] + [[97]] == [[97]];
    WalkLastName(t, 1, 1, [[97]], DOTDOT);
    assert [[97]] + [DOTDOT] == [[97], DOTDOT];
    WalkLastName(t, 1, 1, [[97], DOTDOT], [98]);
    assert [[97], DOTDOT] + [[98]] == [[97], DOTDOT, [98]];
  }

  lemma AroundPlan()
    ensures MvPlan(OneDir(), 1, 1, [97], AroundPath()) == Plan(2, 1, [98])
  {
    OneDirSteps();
    AroundParts();
    AroundWalks();
    NameComponents([], [97]);
    SplitDirWalks(OneDir(), 1, 1, AroundPath());
  }

  /** With ".." it may not: once "a" has become "b" in the root, "a/../b" leads nowhere. */
  lemma DotDotMisses()
    ensures var t, dst, p := OneDir(), AroundPath(), Plan(2, 1, [98]);
      && Shape(t, 1) && Named(t, 1) && MvPlan(t, 1, 1, [97], dst) == p && Moves(t, 1, p)
      && Named(MvTree(t, p), 1) && TreeModel.Resolve(MvTree(t, p), 1, 1, dst) == 0
  {
    var t, dst, p := OneDir(), AroundPath(), Plan(2, 1, [98]);
    OneDirSteps();
    AroundParts();
    AroundPlan();
    assert TreeModel.FindChild(t, t[1].kids, [98]) == 0;
    MvNamedIff(t, 1, 1, [97], dst);
    var t' := MvTree(t, p);
    assert MovedKids(t, 2, 1, 1) == [2];
    assert Step(t', 1, [97]) == 0;
    assert 0 !in t' && TreeModel.Walk(t', 0, Components(dst)[1..]) == 0;
  }

  /** 31 bytes are stored of a longer name, so a move that passed the check for existing names
      can still leave two siblings with one name. */
  lemma LongNameClash() returns (t: Tree, name: seq<Char>)
    ensures |name| == NAME_MAX && Shape(t, 1) && Named(t, 1)
    ensures CanMove(t, 1, 2, 1) && TreeModel.FindChild(t, t[1].kids, name) == 0
    ensures !Named(TreeOps.Move(t, 2, 1, Truncated(name)), 1)
  {
    var long: seq<Char> := seq(31, _ => 97);
    name := seq(32, _ => 97);
    t := map[1 := Rec([], Dir, 0, [2, 3], 0, 0, [], 0),
             2 := Rec([98], File, 1, [], 1, 0, [], 0),
             3 := Rec(long, File, 1, [], 1, 0, [], 0)];
    assert UpOK(t, 2) && UpOK(t, 3);
    assert DownOK(t, 1) && DownOK(t, 2) && DownOK(t, 3);
    assert Truncated(name) == long;
    assert !Unclashing(t, 2, 1, long) by {
      assert 3 in t[1].kids && t[3].name == long;
    }
    assert [98] != long && [98] != name && |long| != |name|;
    assert t[1].kids[1..] == [3] && [3][1..] == [];
    assert TreeModel.FindChild(t, [3], name) == 0;
    MoveNamedIff(t, 1, 2, 1, long);
  }

  // ---- the commands themselves -------------------------------------------------------

  /** The scan of split_parent for the last '/'. */
  method FindSlash(path: seq<Char>) returns (slash: int)
    ensures slash == LastSlash(path)
  {
    slash := -1;
    var p := 0;
    while p < |path|
      invariant p <= |path| && slash == LastSlashIn(path, p)
    {
      if path[p] == SLASH {
        slash := p;
      }
      p := p + 1;
    }
  }

  /** split_parent. */
  method SplitParent(fs: Fs, cwd: Node, path: seq<Char>) returns (dir: Node?, name: seq<Char>)
    requires fs.Linked() && Shape(fs.t, fs.root.addr) && fs.Has(cwd)
    ensures fs.Linked() && (dir != null ==> fs.Has(dir))
    ensures dir == fs.Obj(SplitDir(fs.t, fs.root.addr, cwd.addr, path)) && name == SplitName(path)
  {
    var slash := FindSlash(path);
    assert fs.Linked();
    name := path[slash + 1..];
    if slash < 0 {
      return cwd, name;
    }
    if slash == 0 {
      return fs.root, name;
    }
    if PATH_MAX <= slash {
      dir := null;
      fs.NullObj();
    } else {
      dir := fs.Resolve(cwd, path[..slash]);
    }
  }

  /** The part of cmd_mv that settles the new parent and name. */
  method MvTarget(fs: Fs, cwd: Node, node: Node, dst: seq<Char>) returns (parent: Node?, name: seq<Char>)
    requires fs.Linked() && Shape(fs.t, fs.root.addr) && fs.Has(cwd) && fs.Has(node)
    ensures fs.Linked() && (parent != null ==> fs.Has(parent))
    ensures var p := PlanFor(fs.t, fs.root.addr, cwd.addr, node.addr, dst);
      (parent == null <==> p.NoPlan?) && (parent != null ==> p == Plan(node.addr, parent.addr, name))
  {
    assert fs.NodeOK(node.addr);
    var there := fs.Resolve(cwd, dst);
    if there != null {
      assert fs.NodeOK(there.addr);
      ghost var d := TreeModel.Resolve(fs.t, fs.root.addr, cwd.addr, dst);
      assert d in fs.t && fs.NodeOK(d) && d == there.addr;
      if there.kind == Dir {
        return there, node.name;
      }
      return null, [];
    }
    parent, name := SplitParent(fs, cwd, dst);
    if parent != null {
      ghost var d := SplitDir(fs.t, fs.root.addr, cwd.addr, dst);
      assert d in fs.t && fs.NodeOK(d) && d == parent.addr;
      if parent.kind != Dir {
        parent := null;
      }
    }
  }

  /** cmd_mv, after its arguments have been counted. */
  method Mv(fs: Fs, cwd: Node, src: seq<Char>, dst: seq<Char>) returns (ok: bool)
    requires fs.Valid() && fs.Has(cwd)
    modifies fs`t, fs.nodes
    ensures fs.Valid()
    ensures ok <==> old(Moves(fs.t, fs.root.addr, MvPlan(fs.t, fs.root.addr, cwd.addr, src, dst)))
    ensures !ok ==> fs.t == old(fs.t)
    ensures ok ==> fs.t == MvTree(old(fs.t), old(MvPlan(fs.t, fs.root.addr, cwd.addr, src, dst)))
  {
    var node := fs.Resolve(cwd, src);
    if node == null {
      return false;
    }
    ghost var n := TreeModel.Resolve(fs.t, fs.root.addr, cwd.addr, src);
    assert n in fs.t && fs.NodeOK(n) && n == node.addr;
    var parent, name := MvTarget(fs, cwd, node, dst);
    if parent == null {
      return false;
    }
    assert fs.NodeOK(fs.root.addr) && fs.Backed();
    ok := fs.Move(node, parent, name);
  }
}
