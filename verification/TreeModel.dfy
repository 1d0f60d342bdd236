/** The ramfs tree as a finite map from node addresses to records: what the parent,
    first-child and next-sibling pointers of fs/ramfs.c stand for. */
module TreeModel {
  import opened Machine
  import opened Paths

  /** The heap address of a node or buffer; 0 is NULL. */
  type Addr = nat

  datatype Kind = File | Dir

  datatype Rec = Rec(name: seq<Char>, kind: Kind, parent: Addr, kids: seq<Addr>, depth: nat,
                     data: Addr, bytes: seq<Byte>, cap: nat)

  type Tree = map<Addr, Rec>

  ghost predicate Distinct(s: seq<Addr>) {
    forall i, j :: 0 <= i < j < |s| ==> s[i] != s[j]
  }

  ghost predicate RootOK(t: Tree, root: Addr) {
    0 !in t && root in t && t[root].parent == 0 && t[root].kind.Dir? && t[root].depth == 0
  }

  /** A node other than the root hangs below exactly the parent it names, one level deeper. */
  ghost predicate UpOK(t: Tree, a: Addr)
    requires a in t
  {
    t[a].parent in t && a in t[t[a].parent].kids && t[a].depth == t[t[a].parent].depth + 1
  }

  /** The child list holds nodes that name this parent, each once; files have none. */
  ghost predicate DownOK(t: Tree, a: Addr)
    requires a in t
  {
    && (forall c :: c in t[a].kids ==> c in t && t[c].parent == a)
    && Distinct(t[a].kids)
    && (t[a].kind.File? ==> t[a].kids == [])
  }

  /** A finite tree: one root, every other node on exactly its parent's child list, no cycles. */
  ghost predicate Shape(t: Tree, root: Addr) {
    && RootOK(t, root)
    && (forall a {:trigger UpOK(t, a)} :: a in t && a != root ==> UpOK(t, a))
    && (forall a {:trigger DownOK(t, a)} :: a in t ==> DownOK(t, a))
  }

  ghost predicate SiblingsDistinct(t: Tree, p: Addr)
    requires p in t
  {
    forall i, j :: 0 <= i < j < |t[p].kids| && t[p].kids[i] in t && t[p].kids[j] in t
      ==> t[t[p].kids[i]].name != t[t[p].kids[j]].name
  }

  /** Every name below the root is a proper name, and siblings are told apart by theirs. */
  ghost predicate Named(t: Tree, root: Addr) {
    && (forall a :: a in t && a != root ==> NameOK(t[a].name))
    && (forall p {:trigger SiblingsDistinct(t, p)} :: p in t ==> SiblingsDistinct(t, p))
  }

  // ---- Ancestry ------------------------------------------------------------

  /** `a` is `n` or lies below it. */
  ghost predicate Under(t: Tree, a: Addr, n: Addr)
    requires a in t
    decreases t[a].depth
  {
    a == n || (t[a].parent in t && t[t[a].parent].depth < t[a].depth && Under(t, t[a].parent, n))
  }

  ghost function Sub(t: Tree, n: Addr): set<Addr> {
    set a | a in t && Under(t, a, n)
  }

  // ---- Lookup --------------------------------------------------------------

  function FindChild(t: Tree, kids: seq<Addr>, name: seq<Char>): (c: Addr)
    ensures c != 0 ==> c in kids && c in t && t[c].name == name
    ensures c == 0 ==> forall k :: k in kids && k in t && k != 0 ==> t[k].name != name
  {
    if kids == [] then 0
    else if kids[0] in t && t[kids[0]].name == name && kids[0] != 0 then kids[0]
    else FindChild(t, kids[1..], name)
  }

  /** One component of a path, taken from node `cur`. */
  function Step(t: Tree, cur: Addr, c: seq<Char>): Addr
    requires cur in t
  {
    if NAME_MAX <= |c| then 0
    else if c == DOT then cur
    else if c == DOTDOT then (if t[cur].parent != 0 then t[cur].parent else cur)
    else if t[cur].kind.Dir? then FindChild(t, t[cur].kids, c)
    else 0
  }

  /** The left fold of Step; 0 as soon as a component is missing. */
  function Walk(t: Tree, cur: Addr, cs: seq<seq<Char>>): (r: Addr)
    ensures r != 0 ==> r in t
    decreases |cs|
  {
    if cur !in t then 0
    else if cs == [] then cur
    else Walk(t, Step(t, cur, cs[0]), cs[1..])
  }

  /** Where a path starts: at the root when it is absolute, else at the working directory. */
  function StartOf(root: Addr, cwd: Addr, path: seq<Char>): Addr {
    if path != [] && path[0] == SLASH then root else cwd
  }

  /** The meaning of a path string. */
  function Resolve(t: Tree, root: Addr, cwd: Addr, path: seq<Char>): Addr {
    Walk(t, StartOf(root, cwd, path), Components(path))
  }

  datatype Last = Last(node: Addr, parent: Addr, name: seq<Char>)

  /** The loop of walk. With `wantParent` it stops at the last proper name, which need not
      exist yet, and reports the directory that would hold it. */
  function Follow(t: Tree, cur: Addr, cs: seq<seq<Char>>, wantParent: bool): Last
    requires cur in t
    decreases |cs|
  {
    if cs == [] then Last(cur, 0, [])
    else if NAME_MAX <= |cs[0]| then Last(0, 0, [])
    else if |cs| == 1 && Plain(cs[0]) && wantParent then
      if t[cur].kind.Dir? then Last(FindChild(t, t[cur].kids, cs[0]), cur, cs[0]) else Last(0, 0, [])
    else
      var n := Step(t, cur, cs[0]);
      if n != 0 && n in t then Follow(t, n, cs[1..], wantParent) else Last(0, 0, [])
  }

  // ---- Shape lemmas --------------------------------------------------------

  lemma StepInTree(t: Tree, root: Addr, cur: Addr, c: seq<Char>)
    requires Shape(t, root) && cur in t
    ensures Step(t, cur, c) != 0 ==> Step(t, cur, c) in t
  {
    if cur != root {
      assert UpOK(t, cur);
    }
  }

  lemma {:induction false} WalkConcat(t: Tree, root: Addr, cur: Addr, cs: seq<seq<Char>>, ds: seq<seq<Char>>)
    requires Shape(t, root)
    ensures Walk(t, cur, cs + ds) == Walk(t, Walk(t, cur, cs), ds)
    decreases |cs|
  {
    if cs == [] {
      assert cs + ds == ds;
    } else if cur in t {
      assert (cs + ds)[1..] == cs[1..] + ds;
      WalkConcat(t, root, Step(t, cur, cs[0]), cs[1..], ds);
    }
  }

  /** Resolving p then q is resolving "p/q", however many slashes either carries inside. */
  lemma ResolveCompose(t: Tree, root: Addr, cwd: Addr, p: seq<Char>, q: seq<Char>)
    requires Shape(t, root) && p != [] && (q == [] || q[0] != SLASH)
    ensures Resolve(t, root, cwd, p + [SLASH] + q) == Resolve(t, root, Resolve(t, root, cwd, p), q)
  {
    ComponentsJoin(p, q);
    var from := if p[0] == SLASH then root else cwd;
    WalkConcat(t, root, from, Components(p), Components(q));
  }

  /** Repeated slashes change nothing, wherever they stand; nor does a trailing one, unless the
      path is empty, which names the working directory and not the root. */
  lemma ResolveSlashes(t: Tree, root: Addr, cwd: Addr, p: seq<Char>, q: seq<Char>)
    ensures p != [] ==> Resolve(t, root, cwd, p + [SLASH]) == Resolve(t, root, cwd, p)
    ensures Resolve(t, root, cwd, p + [SLASH] + ([SLASH] + q)) == Resolve(t, root, cwd, p + [SLASH] + q)
  {
    ComponentsJoin(p, []);
    assert p + [SLASH] + [] == p + [SLASH] && Components(p) + Components([]) == Components(p);
    ComponentsJoin(p, [SLASH] + q);
    ComponentsJoin(p, q);
    assert ([SLASH] + q)[1..] == q;
    assert (p + [SLASH] + q)[0] == (p + [SLASH] + ([SLASH] + q))[0];
  }

  /** The paths that others are put together from by ResolveCompose: the empty one, "/", and one
      component: too long, ".", ".." at any node, a name at a file, a name in a directory. */
  lemma ResolveOne(t: Tree, root: Addr, cur: Addr, c: seq<Char>)
    requires Shape(t, root) && cur in t
    ensures Resolve(t, root, cur, []) == cur && Resolve(t, root, cur, [SLASH] + c) == Resolve(t, root, root, c)
    ensures c != [] && SLASH !in c ==>
      var r := Resolve(t, root, cur, c);
      if 32 <= |c| then r == 0
      else if c == [46] then r == cur
      else if c == [46, 46] then r == (if cur == root then root else t[cur].parent)
      else if t[cur].kind.File? then r == 0
      else if r == 0 then forall k :: k in t[cur].kids ==> k in t && t[k].name != c
      else r in t[cur].kids && r in t && t[r].name == c
  {
    assert ([SLASH] + c)[1..] == c;
    assert cur != root ==> UpOK(t, cur);
    assert DownOK(t, cur);
    if c != [] && SLASH !in c {
      ComponentsHead(c, []);
      assert c[0] in c && c + [] == c && [c][1..] == [];
      assert Walk(t, cur, [c]) == Walk(t, Step(t, cur, c), []);
      StepInTree(t, root, cur, c);
    }
  }

  function Init(cs: seq<seq<Char>>): seq<seq<Char>>
    requires cs != []
  {
    cs[..|cs| - 1]
  }

  /** The last component is a proper name and the ones before it lead to a directory. */
  predicate HasParent(t: Tree, cur: Addr, cs: seq<seq<Char>>) {
    && cs != [] && Plain(cs[|cs| - 1]) && |cs[|cs| - 1]| < NAME_MAX
    && Walk(t, cur, Init(cs)) != 0 && t[Walk(t, cur, Init(cs))].kind.Dir?
  }

  lemma HasParentTail(t: Tree, cur: Addr, cs: seq<seq<Char>>)
    requires cur in t && 1 < |cs|
    ensures HasParent(t, cur, cs) == HasParent(t, Step(t, cur, cs[0]), cs[1..])
    ensures Walk(t, cur, Init(cs)) == Walk(t, Step(t, cur, cs[0]), Init(cs[1..]))
    ensures cs[|cs| - 1] == cs[1..][|cs[1..]| - 1]
  {
    assert Init(cs)[1..] == Init(cs[1..]) && Init(cs)[0] == cs[0];
  }

  /** What walk returns, in terms of the fold: always the node the whole path leads to, and,
      when asked, a parent exactly when there is one. */
  lemma {:induction false} FollowMeaning(t: Tree, root: Addr, cur: Addr, cs: seq<seq<Char>>, wantParent: bool)
    requires Shape(t, root) && cur in t
    ensures Follow(t, cur, cs, wantParent) ==
      if wantParent && HasParent(t, cur, cs)
      then Last(Walk(t, cur, cs), Walk(t, cur, Init(cs)), cs[|cs| - 1])
      else Last(Walk(t, cur, cs), 0, [])
    decreases |cs|
  {
    if cs != [] {
      StepInTree(t, root, cur, cs[0]);
      var n := Step(t, cur, cs[0]);
      if |cs| == 1 {
        assert Init(cs) == [] && cs[1..] == [];
      } else {
        HasParentTail(t, cur, cs);
        if n in t {
          FollowMeaning(t, root, n, cs[1..], wantParent);
        }
      }
    }
  }

  // ---- Ancestry lemmas -------------------------------------------------------

  lemma {:induction false} UnderDepth(t: Tree, a: Addr, n: Addr)
    requires a in t && Under(t, a, n)
    ensures n in t && t[n].depth <= t[a].depth
    ensures t[n].depth == t[a].depth ==> a == n
    decreases t[a].depth
  {
    if a != n {
      UnderDepth(t, t[a].parent, n);
    }
  }

  lemma {:induction false} UnderTrans(t: Tree, a: Addr, b: Addr, c: Addr)
    requires a in t && b in t && Under(t, a, b) && Under(t, b, c)
    ensures Under(t, a, c)
    decreases t[a].depth
  {
    if a != b {
      UnderTrans(t, t[a].parent, b, c);
    }
  }

  /** Ancestors of one node at equal depth are equal: siblings' subtrees are disjoint. */
  lemma {:induction false} UnderUnique(t: Tree, a: Addr, x: Addr, y: Addr)
    requires a in t && Under(t, a, x) && Under(t, a, y)
    requires x in t && y in t && t[x].depth == t[y].depth
    ensures x == y
    decreases t[a].depth
  {
    if a == x {
      UnderDepth(t, a, y);
    } else if a == y {
      UnderDepth(t, a, x);
    } else {
      UnderUnique(t, t[a].parent, x, y);
    }
  }

  lemma {:induction false} UnderRoot(t: Tree, root: Addr, a: Addr)
    requires Shape(t, root) && a in t
    ensures Under(t, a, root)
    decreases t[a].depth
  {
    if a != root {
      assert UpOK(t, a);
      UnderRoot(t, root, t[a].parent);
    }
  }

  /** A node strictly below `n` lies below one of n's children. */
  lemma {:induction false} UnderKid(t: Tree, root: Addr, a: Addr, n: Addr) returns (k: Addr)
    requires Shape(t, root) && a in t && n in t && Under(t, a, n) && a != n
    ensures k in t[n].kids && k in t && Under(t, a, k)
    decreases t[a].depth
  {
    assert a != root;
    assert UpOK(t, a);
    if t[a].parent == n {
      k := a;
    } else {
      k := UnderKid(t, root, t[a].parent, n);
    }
  }

  lemma KidFacts(t: Tree, root: Addr, n: Addr, k: Addr)
    requires Shape(t, root) && n in t && k in t[n].kids
    ensures k in t && k != 0 && k != root && k != n && t[k].parent == n && t[k].depth == t[n].depth + 1
    ensures Under(t, k, n) && Sub(t, k) < Sub(t, n)
  {
    assert DownOK(t, n);
    assert k != root;
    assert UpOK(t, k);
    assert Under(t, n, n);
    forall a | a in Sub(t, k) ensures a in Sub(t, n) {
      UnderTrans(t, a, k, n);
    }
    assert n !in Sub(t, k) by {
      if n in Sub(t, k) {
        UnderDepth(t, n, k);
      }
    }
    assert n in Sub(t, n);
  }
}
