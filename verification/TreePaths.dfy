/** Printing the path of a node, and splitting a path into directory and name. */
module TreePaths {
  import opened Machine
  import opened Paths
  import opened TreeModel
  import opened TreeOps
  import opened Slices

  const CHAIN_MAX: nat := 32
  const PATH_MAX: nat := 256

  /** The names from just below the root down to `n`. */
  function Names(t: Tree, n: Addr): seq<seq<Char>>
    requires n in t
    decreases t[n].depth
  {
    if t[n].parent in t && t[t[n].parent].depth < t[n].depth
    then Names(t, t[n].parent) + [t[n].name]
    else []
  }

  function LastOf(names: seq<seq<Char>>, k: nat): seq<seq<Char>> {
    if |names| <= k then names else names[|names| - k..]
  }

  /** The absolute path of a node, without any limit on its length. */
  function FullPath(t: Tree, n: Addr): seq<Char>
    requires n in t
  {
    if t[n].parent == 0 then [SLASH] else Print(Names(t, n))
  }

  /** What ramfs_path leaves in a buffer of `len` bytes. */
  function Printed(t: Tree, n: Addr, len: nat): seq<Char>
    requires n in t && 0 < len
  {
    if t[n].parent == 0 then Cut([SLASH], len - 1)
    else Cut(Print(LastOf(Names(t, n), CHAIN_MAX)), len - 1)
  }

  lemma {:induction false} NamesDepth(t: Tree, root: Addr, n: Addr)
    requires Shape(t, root) && n in t
    ensures |Names(t, n)| == t[n].depth
    ensures n == root <==> t[n].depth == 0
    decreases t[n].depth
  {
    if n != root {
      assert UpOK(t, n);
      NamesDepth(t, root, t[n].parent);
    }
  }

  lemma {:induction false} NamesProper(t: Tree, root: Addr, n: Addr)
    requires Shape(t, root) && Named(t, root) && n in t
    ensures forall c :: c in Names(t, n) ==> NameOK(c)
    decreases t[n].depth
  {
    if n != root {
      assert UpOK(t, n);
      NamesProper(t, root, t[n].parent);
    }
  }

  lemma StepToKid(t: Tree, root: Addr, n: Addr)
    requires Shape(t, root) && Named(t, root) && n in t && n != root
    ensures t[n].parent in t && Step(t, t[n].parent, t[n].name) == n
  {
    assert UpOK(t, n);
    var p := t[n].parent;
    assert DownOK(t, p) && SiblingsDistinct(t, p);
    forall j | j in t[p].kids && j in t && j != n ensures t[j].name != t[n].name {
      SiblingsApart(t, p, j, n);
    }
    FindNamed(t, t[p].kids, n);
  }

  /** Following a node's names from the root leads to the node. */
  lemma {:induction false} WalkNames(t: Tree, root: Addr, n: Addr)
    requires Shape(t, root) && Named(t, root) && n in t
    ensures Walk(t, root, Names(t, n)) == n
    decreases t[n].depth
  {
    if n != root {
      assert UpOK(t, n);
      StepToKid(t, root, n);
      WalkNames(t, root, t[n].parent);
      WalkConcat(t, root, root, Names(t, t[n].parent), [t[n].name]);
    }
  }

  /** No walk gets deeper than its number of components. */
  lemma {:induction false} WalkDepth(t: Tree, root: Addr, cur: Addr, cs: seq<seq<Char>>)
    requires Shape(t, root) && cur in t
    ensures Walk(t, cur, cs) != 0 ==> t[Walk(t, cur, cs)].depth <= t[cur].depth + |cs|
    decreases |cs|
  {
    if cs != [] {
      var s := Step(t, cur, cs[0]);
      StepInTree(t, root, cur, cs[0]);
      if s != 0 {
        assert t[s].depth <= t[cur].depth + 1 by {
          if s in t[cur].kids {
            KidFacts(t, root, cur, s);
          } else if cur != root {
            assert UpOK(t, cur);
          }
        }
        WalkDepth(t, root, s, cs[1..]);
      }
    }
  }

  /** Cutting a path short never gives it more components. */
  lemma {:induction false} CutComponents(p: seq<Char>, m: nat)
    requires m <= |p|
    ensures |Components(p[..m])| <= |Components(p)|
    decreases |p|
  {
    if 0 < m {
      if p[0] == SLASH {
        assert p[..m][1..] == p[1..][..m - 1];
        CutComponents(p[1..], m - 1);
      } else if m <= CompLen(p) {
        CutInsideFirst(p, m);
      } else {
        CutComponents(p[CompLen(p)..], m - CompLen(p));
        CutBehindFirst(p, m);
      }
    }
  }

  lemma CutBehindFirst(p: seq<Char>, m: nat)
    requires p != [] && p[0] != SLASH && CompLen(p) < m <= |p|
    ensures var n := CompLen(p);
      |Components(p[..m])| == 1 + |Components(p[n..][..m - n])| && |Components(p)| == 1 + |Components(p[n..])|
  {
    var n := CompLen(p);
    ComponentsHead(p[..n], p[n..][..m - n]);
    assert p[..m] == p[..n] + p[n..][..m - n];
  }

  lemma CutInsideFirst(p: seq<Char>, m: nat)
    requires 0 < m <= CompLen(p)
    ensures Components(p[..m]) == [p[..m]]
  {
    assert p[..m] == p[..CompLen(p)][..m];
    ComponentsHead(p[..m], []);
    assert p[..m] + [] == p[..m];
  }

  lemma {:induction false} PrintRooted(names: seq<seq<Char>>)
    requires names != []
    ensures Print(names) != [] && Print(names)[0] == SLASH
  {
    if 1 < |names| {
      PrintRooted(names[..|names| - 1]);
    }
  }

  /** When the path fits, resolving what ramfs_path printed leads back to the node. */
  lemma PrintedResolves(t: Tree, root: Addr, cwd: Addr, n: Addr, len: nat)
    requires Shape(t, root) && Named(t, root) && n in t
    requires t[n].depth <= CHAIN_MAX && |FullPath(t, n)| < len
    ensures Printed(t, n, len) == FullPath(t, n)
    ensures Resolve(t, root, cwd, Printed(t, n, len)) == n
  {
    NamesDepth(t, root, n);
    if n == root {
      assert Components([SLASH]) == [];
    } else {
      assert UpOK(t, n);
      NamesProper(t, root, n);
      ComponentsPrint(Names(t, n));
      PrintRooted(Names(t, n));
      WalkNames(t, root, n);
    }
  }

  /** A walk shorter than a node is deep cannot reach it. */
  lemma TooShallow(t: Tree, root: Addr, n: Addr, cs: seq<seq<Char>>)
    requires Shape(t, root) && n in t && |cs| < t[n].depth
    ensures Walk(t, root, cs) != n
  {
    WalkDepth(t, root, root, cs);
  }

  /** From its parent, a node is reached by its own name only. */
  lemma StepElsewhere(t: Tree, root: Addr, n: Addr, c: seq<Char>)
    requires Shape(t, root) && n in t && n != root && c != t[n].name
    ensures t[n].parent in t && Step(t, t[n].parent, c) != n
  {
    assert UpOK(t, n);
    var p := t[n].parent;
    if p != root {
      assert UpOK(t, p);
    }
  }

  /** Cutting the last name short leads to some other node, or to none. */
  lemma CutLastName(t: Tree, root: Addr, n: Addr, c: seq<Char>)
    requires Shape(t, root) && Named(t, root) && n in t && n != root && c != t[n].name
    ensures t[n].parent in t && Walk(t, root, Names(t, t[n].parent) + [c]) != n
  {
    assert UpOK(t, n);
    var p := t[n].parent;
    WalkNames(t, root, p);
    WalkConcat(t, root, root, Names(t, p), [c]);
    StepElsewhere(t, root, n, c);
    assert [c][1..] == [];
  }

  lemma CutInFront(t: Tree, root: Addr, n: Addr, names: seq<seq<Char>>, m: nat)
    requires Shape(t, root) && n in t && |names| < t[n].depth
    requires forall c :: c in names ==> c != [] && SLASH !in c
    requires m <= |Print(names)| + 1
    ensures Walk(t, root, Components((Print(names) + [SLASH])[..m])) != n
  {
    FrontComponents(names);
    CutComponents(Print(names) + [SLASH], m);
    TooShallow(t, root, n, Components((Print(names) + [SLASH])[..m]));
  }

  lemma CutInName(names: seq<seq<Char>>, c: seq<Char>)
    requires forall x :: x in names ==> x != [] && SLASH !in x
    requires c != [] && SLASH !in c
    ensures Components(Print(names) + [SLASH] + c) == names + [c]
  {
    ComponentsJoin(Print(names), c);
    ComponentsPrint(names);
    ComponentsHead(c, []);
    assert c + [] == c;
  }

  lemma CutCases(names: seq<seq<Char>>, name: seq<Char>, m: nat)
    requires m < |Print(names + [name])|
    ensures var front := Print(names) + [SLASH];
      Print(names + [name])[..m] == if m <= |front| then front[..m] else front + name[..m - |front|]
    ensures 0 < m ==> Print(names + [name])[..m][0] == SLASH
    ensures m < |Print(names)| + 1 + |name|
  {
    PrintLast(names, name);
    PrintRooted(names + [name]);
  }

  /** A path cut inside its last name leads elsewhere. */
  lemma CutInLastName(t: Tree, root: Addr, cwd: Addr, n: Addr, names: seq<seq<Char>>, path: seq<Char>, c: seq<Char>)
    requires Shape(t, root) && Named(t, root) && n in t && n != root
    requires t[n].parent in t && names == Names(t, t[n].parent)
    requires path == Print(names) + [SLASH] + c && path[0] == SLASH
    requires c != [] && SLASH !in c && c != t[n].name
    ensures Resolve(t, root, cwd, path) != n
  {
    NamesProper(t, root, t[n].parent);
    CutInName(names, c);
    CutLastName(t, root, n, c);
  }

  /** When the path is cut, resolving the remains does not lead back to the node. */
  lemma CutPrintedLost(t: Tree, root: Addr, cwd: Addr, n: Addr, names: seq<seq<Char>>, m: nat)
    requires Shape(t, root) && Named(t, root) && n in t && n != root
    requires t[n].parent in t && names == Names(t, t[n].parent)
    requires 0 < m < |Print(names + [t[n].name])|
    ensures Resolve(t, root, cwd, Print(names + [t[n].name])[..m]) != n
  {
    assert UpOK(t, n) && NameOK(t[n].name);
    NamesDepth(t, root, t[n].parent);
    NamesProper(t, root, t[n].parent);
    CutCases(names, t[n].name, m);
    var k := |Print(names)| + 1;
    if m <= k {
      CutInFront(t, root, n, names, m);
    } else {
      var c := t[n].name[..m - k];
      assert SLASH !in t[n].name && |c| < |t[n].name|;
      CutInLastName(t, root, cwd, n, names, Print(names + [t[n].name])[..m], c);
    }
  }

  lemma PrintLast(names: seq<seq<Char>>, name: seq<Char>)
    ensures Print(names + [name]) == Print(names) + [SLASH] + name
  {
    assert (names + [name])[..|names|] == names;
  }

  lemma FrontComponents(names: seq<seq<Char>>)
    requires forall c :: c in names ==> c != [] && SLASH !in c
    ensures Components(Print(names)) == names
    ensures Components(Print(names) + [SLASH]) == names
  {
    ComponentsPrint(names);
    ComponentsJoin(Print(names), []);
    assert Print(names) + [SLASH] + [] == Print(names) + [SLASH];
    assert names + [] == names;
  }

  lemma TooFewNames(t: Tree, root: Addr, cwd: Addr, n: Addr, names: seq<seq<Char>>, k: nat)
    requires Shape(t, root) && n in t && 0 < |names| < t[n].depth && 0 < k
    requires forall c :: c in names ==> c != [] && SLASH !in c
    ensures Resolve(t, root, cwd, Cut(Print(names), k)) != n
  {
    ComponentsPrint(names);
    PrintRooted(names);
    var m := if |Print(names)| <= k then |Print(names)| else k;
    assert Cut(Print(names), k) == Print(names)[..m];
    CutComponents(Print(names), m);
    assert Print(names)[..m][0] == SLASH;
    TooShallow(t, root, n, Components(Print(names)[..m]));
  }

  lemma LastOfFacts(names: seq<seq<Char>>, k: nat)
    requires k < |names|
    ensures |LastOf(names, k)| == k
    ensures forall c :: c in LastOf(names, k) ==> c in names
  {
  }

  /** Below level 32 the printed path lacks its first names, and does not lead back. */
  lemma TooDeepLost(t: Tree, root: Addr, cwd: Addr, n: Addr, len: nat)
    requires Shape(t, root) && Named(t, root) && n in t && 2 <= len && CHAIN_MAX < t[n].depth
    ensures Resolve(t, root, cwd, Printed(t, n, len)) != n
  {
    NamesDepth(t, root, n);
    NamesProper(t, root, n);
    LastOfFacts(Names(t, n), CHAIN_MAX);
    TooFewNames(t, root, cwd, n, LastOf(Names(t, n), CHAIN_MAX), len - 1);
    ParentNonzero(t, root, n);
  }

  lemma ParentNonzero(t: Tree, root: Addr, n: Addr)
    requires Shape(t, root) && n in t
    ensures t[n].parent == 0 <==> n == root
  {
    assert n != root ==> UpOK(t, n);
  }

  lemma CutLost(t: Tree, root: Addr, cwd: Addr, n: Addr, len: nat)
    requires Shape(t, root) && Named(t, root) && n in t && 2 <= len
    requires t[n].depth <= CHAIN_MAX && len <= |FullPath(t, n)|
    ensures Resolve(t, root, cwd, Printed(t, n, len)) != n
  {
    assert n != root && UpOK(t, n);
    NamesDepth(t, root, n);
    assert Printed(t, n, len) == Print(Names(t, n))[..len - 1];
    CutPrintedLost(t, root, cwd, n, Names(t, t[n].parent), len - 1);
  }

  /** Path printing and resolution undo each other, from any working directory, exactly when
      the node is at most 32 levels deep and its full path fits the buffer. */
  lemma PrintedResolvesIff(t: Tree, root: Addr, cwd: Addr, n: Addr, len: nat)
    requires Shape(t, root) && Named(t, root) && n in t && 2 <= len
    ensures Resolve(t, root, cwd, Printed(t, n, len)) == n
            <==> t[n].depth <= CHAIN_MAX && |FullPath(t, n)| < len
  {
    if CHAIN_MAX < t[n].depth {
      TooDeepLost(t, root, cwd, n, len);
    } else if |FullPath(t, n)| < len {
      PrintedResolves(t, root, cwd, n, len);
    } else {
      CutLost(t, root, cwd, n, len);
    }
  }

  lemma CutBehindSlash(names: seq<seq<Char>>, name: seq<Char>)
    ensures var front := Print(names) + [SLASH];
      Cut(Print(names + [name]), |front|) == front && front[0] == SLASH
  {
    PrintLast(names, name);
    if names != [] {
      PrintRooted(names);
    }
  }

  lemma LastPrinted(names: seq<seq<Char>>, k: nat)
    requires forall c :: c in names ==> NameOK(c)
    ensures Components(Print(LastOf(names, k))) == LastOf(names, k)
    ensures LastOf(names, k) == if |names| <= k then names else names[|names| - k..]
  {
    if k < |names| {
      LastOfFacts(names, k);
    }
    ComponentsPrint(LastOf(names, k));
  }

  /** What is printed, when it fits: the names from the root down to the node, or the last 32. */
  lemma PrintedNames(t: Tree, root: Addr, n: Addr, len: nat)
    requires Shape(t, root) && Named(t, root) && n in t && 2 <= len
    ensures var names := Names(t, n);
      var last := if |names| <= 32 then names else names[|names| - 32..];
      && |names| == t[n].depth
      && (|Print(last)| < len ==> Components(Printed(t, n, len)) == last)
      && (n == root ==> Printed(t, n, len) == [SLASH])
  {
    var names := Names(t, n);
    NamesDepth(t, root, n);
    NamesProper(t, root, n);
    ParentNonzero(t, root, n);
    LastPrinted(names, 32);
    assert Components([SLASH]) == [];
  }

  /** A path cut just behind its last slash leads to the node's parent. */
  lemma CutAtSlash(t: Tree, root: Addr, cwd: Addr, n: Addr, len: nat)
    requires Shape(t, root) && Named(t, root) && n in t && n != root && t[n].depth <= CHAIN_MAX
    requires t[n].parent in t && len == |Print(Names(t, t[n].parent))| + 2
    ensures Resolve(t, root, cwd, Printed(t, n, len)) == t[n].parent
  {
    assert UpOK(t, n);
    var names := Names(t, t[n].parent);
    NamesDepth(t, root, t[n].parent);
    NamesProper(t, root, t[n].parent);
    CutBehindSlash(names, t[n].name);
    FrontComponents(names);
    WalkNames(t, root, t[n].parent);
  }

  /** Directories 1 to |ns| + 1, each but the first created inside the one before, with these names. */
  function Nest(ns: seq<seq<Char>>): (t: Tree)
    ensures |ns| + 1 in t
  {
    if ns == [] then map[1 := Rec([], Dir, 0, [], 0, 0, [], 0)]
    else Insert(Nest(Init(ns)), |ns|, |ns| + 1, ns[|ns| - 1], Dir)
  }

  lemma {:induction false} NestRecords(ns: seq<seq<Char>>)
    ensures forall n :: n in Nest(ns) <==> 1 <= n <= |ns| + 1
    ensures forall n {:trigger Nest(ns)[n]} :: 1 <= n <= |ns| + 1 ==>
      var name, kids := if n == 1 then [] else ns[n - 2], if n <= |ns| then [n + 1] else [];
      Nest(ns)[n] == Rec(name, Dir, n - 1, kids, n - 1, 0, [], 0)
  {
    if ns != [] {
      NestRecords(Init(ns));
    }
  }

  lemma {:induction false} NestShape(ns: seq<seq<Char>>)
    requires forall c :: c in ns ==> NameOK(c)
    ensures Shape(Nest(ns), 1) && Named(Nest(ns), 1)
  {
    if ns == [] {
      assert DownOK(Nest([]), 1);
    } else {
      var d, t := |ns|, Nest(Init(ns));
      NestShape(Init(ns));
      NestRecords(Init(ns));
      InsertShape(t, 1, d, d + 1, ns[d - 1], Dir);
      InsertNamed(t, 1, d, d + 1, ns[d - 1], Dir);
    }
  }

  lemma OneMore(ns: seq<seq<Char>>, k: nat)
    requires k < |ns|
    ensures ns[..k + 1] == ns[..k] + [ns[k]]
  {
  }

  lemma {:induction false} NestNames(ns: seq<seq<Char>>, n: nat)
    requires 1 <= n <= |ns| + 1
    ensures n in Nest(ns) && Names(Nest(ns), n) == ns[..n - 1]
    decreases n
  {
    NestRecords(ns);
    if 1 < n {
      NestNames(ns, n - 1);
      OneMore(ns, n - 2);
    }
  }

  lemma {:induction false} RepeatLength(c: seq<Char>, n: nat)
    ensures |Print(Repeat(c, n))| == n * (|c| + 1)
  {
    if n != 0 {
      RepeatLength(c, n - 1);
      assert Repeat(c, n)[..n - 1] == Repeat(c, n - 1);
    }
  }

  lemma SameEnds()
    ensures var ns := Repeat([97], 33);
      LastOf(ns[..33], CHAIN_MAX) == LastOf(ns[..32], CHAIN_MAX) && |Print(ns[..32])| == 64
  {
    var ns, few := Repeat([97], 33), Repeat([97], 32);
    assert ns[..33] == ns && ns[..32] == few && ns[1..] == few;
    assert LastOf(ns, CHAIN_MAX) == ns[1..];
    assert LastOf(few, CHAIN_MAX) == few;
    RepeatLength([97], 32);
  }

  /** A node one level too deep: however large the buffer, its printed path leads to its parent. */
  lemma DeepLeadsToParent(cwd: Addr, len: nat)
    requires 64 < len
    ensures var t := Nest(Repeat([97], 33));
      && Shape(t, 1) && Named(t, 1) && 34 in t && t[34].depth == 33 && t[34].parent == 33
      && Resolve(t, 1, cwd, Printed(t, 34, len)) == 33
  {
    var ns := Repeat([97], 33);
    var t := Nest(ns);
    NestShape(ns);
    NestRecords(ns);
    NestNames(ns, 34);
    NestNames(ns, 33);
    SameEnds();
    PrintedResolves(t, 1, cwd, 33, len);
  }

  /** Seven names of 31 bytes and one of 29, whose path takes 254 bytes. */
  function LongNames(): seq<seq<Char>> {
    Repeat(Repeat(97, 31), 7) + [Repeat(97, 29)]
  }

  lemma LongNamesLength()
    ensures |Print(LongNames())| == 254
  {
    RepeatLength(Repeat(97, 31), 7);
    PrintLast(Repeat(Repeat(97, 31), 7), Repeat(97, 29));
  }

  /** A path one byte too long for the 256 that every caller of ramfs_path gives it: cut behind its
      last slash, it leads to the parent. */
  lemma CutLeadsToParent(cwd: Addr)
    ensures var t := Nest(LongNames() + [[97]]);
      && Shape(t, 1) && Named(t, 1) && 10 in t && t[10].parent == 9
      && |FullPath(t, 10)| == PATH_MAX && Resolve(t, 1, cwd, Printed(t, 10, PATH_MAX)) == 9
  {
    var ns: seq<seq<Char>> := LongNames() + [[97]];
    NestShape(ns);
    NestRecords(ns);
    NestNames(ns, 9);
    NestNames(ns, 10);
    LongNamesLength();
    PrintLast(LongNames(), [97]);
    CutAtSlash(Nest(ns), 1, cwd, 10, PATH_MAX);
  }

  // ---- the chain that ramfs_path collects ----------------------------------------

  /** The names of `n` and of the k - 1 nodes above it, top-down. */
  function ChainNames(t: Tree, n: Addr, k: nat): seq<seq<Char>>
    requires n in t
    decreases k
  {
    if k == 0 then []
    else if k == 1 || t[n].parent !in t then [t[n].name]
    else ChainNames(t, t[n].parent, k - 1) + [t[n].name]
  }

  lemma {:induction false} ChainLastOf(t: Tree, root: Addr, n: Addr, k: nat)
    requires Shape(t, root) && n in t && 0 < k <= t[n].depth
    ensures |Names(t, n)| == t[n].depth && ChainNames(t, n, k) == Names(t, n)[t[n].depth - k..]
    decreases k
  {
    NamesDepth(t, root, n);
    assert n != root && UpOK(t, n);
    NamesDepth(t, root, t[n].parent);
    if k > 1 {
      ChainLastOf(t, root, t[n].parent, k - 1);
    }
  }

  /** Appending piece by piece, each time cutting to the buffer, cuts the whole. */
  lemma CutAppend(s: seq<Char>, r: seq<Char>, k: nat)
    ensures Cut(Cut(s, k) + r, k) == Cut(s + r, k)
  {
  }
}
