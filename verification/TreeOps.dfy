/** What create, write, delete and move do to the tree, and the laws they obey. */
module TreeOps {
  import opened Machine
  import opened Paths
  import opened TreeModel

  // ---- create ----------------------------------------------------------------

  /** A new node `a` becomes the first child of `p`. */
  function Insert(t: Tree, p: Addr, a: Addr, name: seq<Char>, kind: Kind): Tree
    requires p in t
  {
    t[p := t[p].(kids := [a] + t[p].kids)][a := Rec(name, kind, p, [], t[p].depth + 1, 0, [], 0)]
  }

  ghost predicate CanInsert(t: Tree, root: Addr, p: Addr, a: Addr) {
    Shape(t, root) && p in t && t[p].kind.Dir? && a !in t && a != 0
  }

  lemma InsertDown(t: Tree, root: Addr, p: Addr, a: Addr, name: seq<Char>, kind: Kind, x: Addr)
    requires CanInsert(t, root, p, a) && (x in t || x == a)
    ensures DownOK(Insert(t, p, a, name, kind), x)
  {
    var t' := Insert(t, p, a, name, kind);
    if x in t {
      assert DownOK(t, x);
      forall c | c in t'[x].kids ensures c in t' && t'[c].parent == x {
        assert c in t[x].kids || c == a;
      }
      if x == p {
        assert a !in t[p].kids;
      }
    }
  }

  lemma InsertShape(t: Tree, root: Addr, p: Addr, a: Addr, name: seq<Char>, kind: Kind)
    requires CanInsert(t, root, p, a)
    ensures Shape(Insert(t, p, a, name, kind), root)
    ensures Insert(t, p, a, name, kind).Keys == t.Keys + {a}
  {
    var t' := Insert(t, p, a, name, kind);
    forall x | x in t' && x != root ensures UpOK(t', x) {
      if x != a {
        assert UpOK(t, x);
      } else {
        assert a in [a] + t[p].kids;
      }
    }
    forall x | x in t' ensures DownOK(t', x) {
      InsertDown(t, root, p, a, name, kind, x);
    }
  }

  lemma InsertSiblings(t: Tree, root: Addr, p: Addr, a: Addr, name: seq<Char>, kind: Kind, x: Addr)
    requires CanInsert(t, root, p, a) && x in t && SiblingsDistinct(t, x)
    requires FindChild(t, t[p].kids, name) == 0
    ensures SiblingsDistinct(Insert(t, p, a, name, kind), x)
  {
    var t' := Insert(t, p, a, name, kind);
    assert DownOK(t, x);
    forall k | k in t[x].kids ensures t'[k].name == t[k].name && (x == p ==> t[k].name != name) {
      assert k in t && k != 0;
    }
    if x == p {
      assert t'[p].kids == [a] + t[p].kids;
      forall i, j | 0 <= i < j < |t'[p].kids|
        ensures t'[t'[p].kids[i]].name != t'[t'[p].kids[j]].name
      {
        assert t'[p].kids[j] == t[p].kids[j - 1] && t[p].kids[j - 1] in t[p].kids;
      }
    }
  }

  lemma InsertNamed(t: Tree, root: Addr, p: Addr, a: Addr, name: seq<Char>, kind: Kind)
    requires CanInsert(t, root, p, a) && Named(t, root)
    requires NameOK(name) && FindChild(t, t[p].kids, name) == 0
    ensures Named(Insert(t, p, a, name, kind), root)
  {
    var t' := Insert(t, p, a, name, kind);
    forall x | x in t' ensures SiblingsDistinct(t', x) {
      if x != a {
        assert SiblingsDistinct(t, x);
        InsertSiblings(t, root, p, a, name, kind, x);
      } else {
        assert t'[a].kids == [];
      }
    }
    forall x | x in t' && x != root ensures NameOK(t'[x].name) {
      assert x != a ==> t'[x].name == t[x].name;
    }
  }

  /** Lookup in a child list does not see changes to other nodes. */
  lemma {:induction false} FindChildSame(t: Tree, t': Tree, kids: seq<Addr>, name: seq<Char>)
    requires forall k :: k in kids ==> (k in t <==> k in t') && (k in t ==> t[k].name == t'[k].name)
    ensures FindChild(t, kids, name) == FindChild(t', kids, name)
  {
    if kids != [] {
      assert kids[0] in kids;
      FindChildSame(t, t', kids[1..], name);
    }
  }

  lemma InsertFinds(t: Tree, root: Addr, p: Addr, a: Addr, name: seq<Char>, kind: Kind, cur: Addr, c: seq<Char>)
    requires CanInsert(t, root, p, a) && cur in t
    ensures var t' := Insert(t, p, a, name, kind);
      FindChild(t', t'[cur].kids, c) == if cur == p && c == name then a else FindChild(t, t[cur].kids, c)
  {
    var t' := Insert(t, p, a, name, kind);
    assert DownOK(t, cur);
    FindChildSame(t, t', t[cur].kids, c);
    if cur == p {
      assert t'[p].kids[1..] == t[p].kids && t'[p].kids[0] == a;
    }
  }

  /** Step depends on a node's parent and kind, and on what its child list finds. */
  lemma StepSame(t: Tree, t': Tree, cur: Addr, c: seq<Char>)
    requires cur in t && cur in t' && t[cur].kind == t'[cur].kind
    requires c == DOTDOT ==> t[cur].parent == t'[cur].parent
    requires FindChild(t', t'[cur].kids, c) == FindChild(t, t[cur].kids, c)
    ensures Step(t', cur, c) == Step(t, cur, c)
  {
  }

  lemma InsertStep(t: Tree, root: Addr, p: Addr, a: Addr, name: seq<Char>, kind: Kind, cur: Addr, c: seq<Char>)
    requires CanInsert(t, root, p, a) && cur in t
    ensures cur != p || c != name ==>
      Step(Insert(t, p, a, name, kind), cur, c) == Step(t, cur, c)
    ensures cur == p && c == name && Plain(name) && |name| < NAME_MAX ==>
      Step(Insert(t, p, a, name, kind), cur, c) == a
  {
    InsertFinds(t, root, p, a, name, kind, cur, c);
    if cur != p || c != name {
      StepSame(t, Insert(t, p, a, name, kind), cur, c);
    }
  }

  /** Every path that resolved before still resolves to the same node. */
  lemma {:induction false} InsertKeepsWalks(t: Tree, root: Addr, p: Addr, a: Addr, name: seq<Char>, kind: Kind,
                                            cur: Addr, cs: seq<seq<Char>>)
    requires CanInsert(t, root, p, a) && FindChild(t, t[p].kids, name) == 0
    requires Plain(name)
    requires Walk(t, cur, cs) != 0
    ensures Walk(Insert(t, p, a, name, kind), cur, cs) == Walk(t, cur, cs)
    decreases |cs|
  {
    if cs != [] {
      InsertStep(t, root, p, a, name, kind, cur, cs[0]);
      InsertKeepsWalks(t, root, p, a, name, kind, Step(t, cur, cs[0]), cs[1..]);
    }
  }

  /** A path whose meaning changed is one that names the new node on its way. */
  lemma {:induction false} InsertChangesOnly(t: Tree, root: Addr, p: Addr, a: Addr, name: seq<Char>, kind: Kind,
                                             cur: Addr, cs: seq<seq<Char>>)
    requires CanInsert(t, root, p, a) && cur in t
    requires Walk(Insert(t, p, a, name, kind), cur, cs) != Walk(t, cur, cs)
    ensures exists i :: 0 <= i < |cs| && Walk(t, cur, cs[..i]) == p && cs[i] == name
    decreases |cs|
  {
    if cs != [] {
      InsertStep(t, root, p, a, name, kind, cur, cs[0]);
      if cur == p && cs[0] == name {
        assert Walk(t, cur, cs[..0]) == p;
      } else {
        var n := Step(t, cur, cs[0]);
        StepInTree(t, root, cur, cs[0]);
        InsertChangesOnly(t, root, p, a, name, kind, n, cs[1..]);
        var i :| 0 <= i < |cs[1..]| && Walk(t, n, cs[1..][..i]) == p && cs[1..][i] == name;
        WalkFirst(t, cur, cs, i);
      }
    }
  }

  lemma WalkFirst(t: Tree, cur: Addr, cs: seq<seq<Char>>, i: nat)
    requires cur in t && i < |cs| - 1
    ensures Walk(t, cur, cs[..i + 1]) == Walk(t, Step(t, cur, cs[0]), cs[1..][..i])
    ensures cs[i + 1] == cs[1..][i]
  {
    assert cs[..i + 1][1..] == cs[1..][..i];
  }

  // ---- Taking a node off a child list ------------------------------------------

  function Without(s: seq<Addr>, n: Addr): (r: seq<Addr>)
    ensures forall x :: x in r ==> x in s
    ensures forall x :: x in s && x != n ==> x in r
    ensures n !in s ==> r == s
  {
    if s == [] then []
    else if s[0] == n then s[1..]
    else [s[0]] + Without(s[1..], n)
  }

  lemma WithoutFirst(s: seq<Addr>, i: nat)
    requires 0 < i < |s|
    ensures s[1..][i - 1] == s[i] && s[..i] + s[i + 1..] == [s[0]] + (s[1..][..i - 1] + s[1..][i..])
  {
  }

  lemma DistinctFirst(x: Addr, s: seq<Addr>)
    ensures Distinct([x] + s) <==> x !in s && Distinct(s)
  {
    if Distinct([x] + s) {
      forall k | 0 <= k < |s| ensures s[k] != x {
        assert ([x] + s)[0] == x && ([x] + s)[k + 1] == s[k];
      }
      forall i, j | 0 <= i < j < |s| ensures s[i] != s[j] {
        assert ([x] + s)[i + 1] == s[i] && ([x] + s)[j + 1] == s[j];
      }
    }
  }

  lemma {:induction false} WithoutAt(s: seq<Addr>, i: nat)
    requires i < |s| && Distinct(s)
    ensures Without(s, s[i]) == s[..i] + s[i + 1..]
    ensures Distinct(Without(s, s[i])) && s[i] !in Without(s, s[i])
  {
    DistinctFirst(s[0], s[1..]);
    assert [s[0]] + s[1..] == s;
    if i > 0 {
      WithoutFirst(s, i);
      WithoutAt(s[1..], i - 1);
      DistinctFirst(s[0], Without(s[1..], s[i]));
    }
  }

  lemma WithoutIndex(s: seq<Addr>, i: nat)
    requires i < |s| && Distinct(s)
    ensures var r := Without(s, s[i]);
      && |r| == |s| - 1
      && (forall j :: 0 <= j < i ==> r[j] == s[j])
      && (forall j :: i <= j < |r| ==> r[j] == s[j + 1])
  {
    WithoutAt(s, i);
  }

  lemma WithoutDistinct(s: seq<Addr>, n: Addr)
    requires Distinct(s)
    ensures Distinct(Without(s, n)) && n !in Without(s, n)
  {
    if n in s {
      var i :| 0 <= i < |s| && s[i] == n;
      WithoutAt(s, i);
    }
  }

  lemma {:induction false} FindWithout(t: Tree, kids: seq<Addr>, n: Addr, name: seq<Char>)
    requires FindChild(t, kids, name) != n
    ensures FindChild(t, Without(kids, n), name) == FindChild(t, kids, name)
  {
    if kids != [] && kids[0] != n && FindChild(t, kids, name) != kids[0] {
      FindWithout(t, kids[1..], n, name);
    }
  }

  /** Every walk that runs through `n` at some point. */
  predicate Visits(t: Tree, cur: Addr, cs: seq<seq<Char>>, n: Addr)
    decreases |cs|
  {
    cur == n || (cs != [] && cur in t && Visits(t, Step(t, cur, cs[0]), cs[1..], n))
  }

  /** Every child list is in order, whether or not all nodes are attached. */
  ghost predicate AllDown(t: Tree) {
    forall a {:trigger DownOK(t, a)} :: a in t ==> DownOK(t, a)
  }

  /** `n` off its parent's list, with no parent. */
  function Detached(t: Tree, n: Addr): Tree
    requires n in t && t[n].parent in t
  {
    var p := t[n].parent;
    var t1 := t[p := t[p].(kids := Without(t[p].kids, n))];
    t1[n := t1[n].(parent := 0)]
  }

  /** `n` first on the list of `p`. */
  function Attached(t: Tree, p: Addr, n: Addr): Tree
    requires n in t && p in t
  {
    var t1 := t[p := t[p].(kids := [n] + t[p].kids)];
    t1[n := t1[n].(parent := p)]
  }

  /** In `t'` the nodes of `s` are of the kinds they were, with their names and file contents. */
  ghost predicate SameFiles(t: Tree, t': Tree, s: set<Addr>) {
    forall a {:trigger t'[a]} :: a in s ==>
      && a in t && a in t' && t'[a].kind == t[a].kind && t'[a].name == t[a].name
      && t'[a].bytes == t[a].bytes && t'[a].cap == t[a].cap && t'[a].data == t[a].data
  }

  // ---- delete ------------------------------------------------------------------

  /** `n` leaves its parent's list and its whole subtree goes. */
  ghost function Delete(t: Tree, n: Addr): Tree
    requires n in t
  {
    map a | a in t && a !in Sub(t, n) ::
      if a == t[n].parent then t[a].(kids := Without(t[a].kids, n)) else t[a]
  }

  ghost predicate CanDetach(t: Tree, root: Addr, n: Addr) {
    Shape(t, root) && n in t && n != root
  }

  lemma ParentOutside(t: Tree, root: Addr, n: Addr)
    requires CanDetach(t, root, n)
    ensures UpOK(t, n) && t[n].parent !in Sub(t, n) && root !in Sub(t, n) && Under(t, n, n)
  {
    assert UpOK(t, n);
    if Under(t, t[n].parent, n) {
      UnderDepth(t, t[n].parent, n);
    }
  }

  lemma DeleteDown(t: Tree, root: Addr, n: Addr, x: Addr)
    requires CanDetach(t, root, n) && x in t && x !in Sub(t, n)
    ensures DownOK(Delete(t, n), x)
  {
    var t' := Delete(t, n);
    assert DownOK(t, x);
    WithoutDistinct(t[x].kids, n);
    forall c | c in t'[x].kids ensures c in t' && t'[c].parent == x {
      assert n in t[x].kids ==> t[n].parent == x;
      assert c in t[x].kids && c != n;
      assert Under(t, x, n) || !Under(t, c, n);
    }
  }

  lemma DeleteShape(t: Tree, root: Addr, n: Addr)
    requires CanDetach(t, root, n)
    ensures Shape(Delete(t, n), root)
    ensures Delete(t, n).Keys == t.Keys - Sub(t, n)
  {
    var t' := Delete(t, n);
    ParentOutside(t, root, n);
    forall x | x in t' && x != root ensures UpOK(t', x) {
      assert UpOK(t, x);
      assert Under(t, x, n) || !Under(t, t[x].parent, n);
    }
    forall x | x in t' ensures DownOK(t', x) {
      DeleteDown(t, root, n, x);
    }
  }

  /** A child list whose names are told apart stays so when some members go. */
  lemma SubSiblings(t: Tree, t': Tree, x: Addr)
    requires x in t && x in t' && SiblingsDistinct(t, x) && Distinct(t'[x].kids)
    requires forall c :: c in t'[x].kids ==> c in t[x].kids && c in t && (c in t' ==> t'[c].name == t[c].name)
    ensures SiblingsDistinct(t', x)
  {
    var ks, ks' := t[x].kids, t'[x].kids;
    forall i, j | 0 <= i < j < |ks'| && ks'[i] in t' && ks'[j] in t' ensures t'[ks'[i]].name != t'[ks'[j]].name {
      assert ks'[i] in ks' && ks'[j] in ks';
      var k :| 0 <= k < |ks| && ks[k] == ks'[i];
      var l :| 0 <= l < |ks| && ks[l] == ks'[j];
      assert k < l || l < k;
    }
  }

  lemma DeleteNamed(t: Tree, root: Addr, n: Addr)
    requires CanDetach(t, root, n) && Named(t, root)
    ensures Named(Delete(t, n), root)
  {
    var t' := Delete(t, n);
    DeleteShape(t, root, n);
    forall x | x in t' ensures SiblingsDistinct(t', x) {
      assert SiblingsDistinct(t, x) && DownOK(t, x) && DownOK(t', x);
      SubSiblings(t, t', x);
    }
  }

  lemma DeleteFinds(t: Tree, root: Addr, n: Addr, cur: Addr, c: seq<Char>)
    requires CanDetach(t, root, n) && cur in t && cur !in Sub(t, n)
    requires FindChild(t, t[cur].kids, c) != n
    ensures FindChild(Delete(t, n), Delete(t, n)[cur].kids, c) == FindChild(t, t[cur].kids, c)
  {
    var t' := Delete(t, n);
    DeleteDown(t, root, n, cur);
    assert DownOK(t, cur);
    FindWithout(t, t[cur].kids, n, c);
    FindChildSame(t, t', t'[cur].kids, c);
  }

  /** Taking one step from outside a subtree leads into it only through its top. */
  lemma StepOutside(t: Tree, root: Addr, n: Addr, cur: Addr, c: seq<Char>)
    requires CanDetach(t, root, n) && cur in t && cur !in Sub(t, n)
    requires Step(t, cur, c) != n && Step(t, cur, c) != 0
    ensures Step(t, cur, c) in t && Step(t, cur, c) !in Sub(t, n)
  {
    StepInTree(t, root, cur, c);
    var s := Step(t, cur, c);
    assert cur != root ==> UpOK(t, cur);
    if s != cur && s != t[cur].parent {
      assert DownOK(t, cur) && s in t[cur].kids;
      assert t[s].parent == cur;
    }
  }

  lemma DeleteStep(t: Tree, root: Addr, n: Addr, cur: Addr, c: seq<Char>)
    requires CanDetach(t, root, n) && cur in t && cur !in Sub(t, n) && Step(t, cur, c) != n
    ensures Step(Delete(t, n), cur, c) == Step(t, cur, c)
    ensures Step(t, cur, c) != 0 ==> Step(t, cur, c) in t && Step(t, cur, c) !in Sub(t, n)
  {
    var t' := Delete(t, n);
    if Step(t, cur, c) != 0 {
      StepOutside(t, root, n, cur, c);
    }
    assert t'[cur].parent == t[cur].parent && t'[cur].kind == t[cur].kind;
    if |c| < NAME_MAX && Plain(c) && t[cur].kind.Dir? {
      DeleteFinds(t, root, n, cur, c);
      StepSame(t, t', cur, c);
    }
  }

  /** Paths that stay clear of the deleted node mean what they meant, found or not. */
  lemma {:induction false} DeleteKeepsWalks(t: Tree, root: Addr, n: Addr, cur: Addr, cs: seq<seq<Char>>)
    requires CanDetach(t, root, n) && cur in t && cur !in Sub(t, n) && !Visits(t, cur, cs, n)
    ensures Walk(Delete(t, n), cur, cs) == Walk(t, cur, cs)
    decreases |cs|
  {
    if cs != [] {
      DeleteStep(t, root, n, cur, cs[0]);
      if Step(t, cur, cs[0]) != 0 {
        DeleteKeepsWalks(t, root, n, Step(t, cur, cs[0]), cs[1..]);
      }
    }
  }

  lemma {:induction false} FindGone(t: Tree, kids: seq<Addr>, name: seq<Char>)
    requires forall k :: k in kids && k in t ==> t[k].name != name
    ensures FindChild(t, kids, name) == 0
  {
    if kids != [] {
      FindGone(t, kids[1..], name);
    }
  }

  /** Paths that ran through the deleted node no longer resolve. */
  lemma {:induction false} DeleteForgetsWalks(t: Tree, root: Addr, n: Addr, cur: Addr, cs: seq<seq<Char>>)
    requires CanDetach(t, root, n) && Named(t, root)
    requires cur in t && cur !in Sub(t, n) && Visits(t, cur, cs, n)
    ensures Walk(Delete(t, n), cur, cs) == 0
    decreases |cs|
  {
    assert Under(t, n, n);
    if Step(t, cur, cs[0]) == n {
      DeleteMisses(t, root, n, cur, cs[0]);
    } else {
      DeleteStep(t, root, n, cur, cs[0]);
      DeleteForgetsWalks(t, root, n, Step(t, cur, cs[0]), cs[1..]);
    }
  }

  lemma DeleteMisses(t: Tree, root: Addr, n: Addr, cur: Addr, c: seq<Char>)
    requires CanDetach(t, root, n) && Named(t, root)
    requires cur in t && cur !in Sub(t, n) && Step(t, cur, c) == n
    ensures Step(Delete(t, n), cur, c) == 0
  {
    assert Under(t, n, n) && UpOK(t, n);
    assert cur != root ==> UpOK(t, cur);
    assert Under(t, cur, n) || t[cur].parent != n;
    assert n in t[cur].kids && t[n].name == c;
    FindDeleted(t, root, n, cur);
  }

  lemma FindDeleted(t: Tree, root: Addr, n: Addr, cur: Addr)
    requires CanDetach(t, root, n) && Named(t, root)
    requires cur in t && cur !in Sub(t, n) && n in t[cur].kids
    ensures FindChild(Delete(t, n), Delete(t, n)[cur].kids, t[n].name) == 0
  {
    KidOfOne(t, root, cur, n);
    assert SiblingsDistinct(t, cur) && DownOK(t, cur);
    OthersApart(t, cur, n);
    FindGone(Delete(t, n), Without(t[cur].kids, n), t[n].name);
  }

  lemma OthersApart(t: Tree, p: Addr, n: Addr)
    requires p in t && n in t && n in t[p].kids && SiblingsDistinct(t, p) && Distinct(t[p].kids)
    ensures forall k :: k in Without(t[p].kids, n) && k in t ==> t[k].name != t[n].name
  {
    WithoutDistinct(t[p].kids, n);
    forall k | k in Without(t[p].kids, n) && k in t ensures t[k].name != t[n].name {
      SiblingsApart(t, p, k, n);
    }
  }

  // ---- move --------------------------------------------------------------------

  /** Where the subtree of `n` ends up: one level below `np`. */
  function Redepth(t: Tree, n: Addr, np: Addr, a: Addr): nat
    requires n in t && np in t && a in t
  {
    if t[n].depth <= t[a].depth then t[a].depth - t[n].depth + t[np].depth + 1 else 0
  }

  function MovedKids(t: Tree, n: Addr, np: Addr, a: Addr): seq<Addr>
    requires n in t && a in t
  {
    var ks := if a == t[n].parent then Without(t[a].kids, n) else t[a].kids;
    if a == np then [n] + ks else ks
  }

  /** `n` becomes the first child of `np`, under a new name, with everything below it. */
  ghost function Move(t: Tree, n: Addr, np: Addr, name: seq<Char>): Tree
    requires n in t && np in t
  {
    map a | a in t ::
      t[a].(name := if a == n then name else t[a].name,
            parent := if a == n then np else t[a].parent,
            kids := MovedKids(t, n, np, a),
            depth := if Under(t, a, n) then Redepth(t, n, np, a) else t[a].depth)
  }

  /** The guard of ramfs_move. */
  ghost predicate CanMove(t: Tree, root: Addr, n: Addr, np: Addr) {
    CanDetach(t, root, n) && np in t && t[np].kind.Dir? && !Under(t, np, n)
  }

  lemma KidOfOne(t: Tree, root: Addr, a: Addr, n: Addr)
    requires CanDetach(t, root, n) && a in t && n in t[a].kids
    ensures a == t[n].parent
  {
    assert DownOK(t, a);
  }

  lemma MoveDown(t: Tree, root: Addr, n: Addr, np: Addr, name: seq<Char>, a: Addr)
    requires CanMove(t, root, n, np) && a in t
    ensures DownOK(Move(t, n, np, name), a)
  {
    var t' := Move(t, n, np, name);
    assert DownOK(t, a);
    if a == t[n].parent {
      WithoutDistinct(t[a].kids, n);
    } else if n in t[a].kids {
      KidOfOne(t, root, a, n);
    }
    forall c | c in t'[a].kids ensures c in t' && t'[c].parent == a {
      assert (c == n && a == np) || (c in t[a].kids && c != n);
    }
  }

  lemma MoveUp(t: Tree, root: Addr, n: Addr, np: Addr, name: seq<Char>, a: Addr)
    requires CanMove(t, root, n, np) && a in t && a != root
    ensures UpOK(Move(t, n, np, name), a)
  {
    var t' := Move(t, n, np, name);
    assert UpOK(t, a);
    if a == n {
      assert a in t'[np].kids;
      assert Under(t, n, n);
    } else {
      assert a in MovedKids(t, n, np, t[a].parent);
      assert Under(t, a, n) <==> Under(t, t[a].parent, n);
      if Under(t, a, n) {
        UnderDepth(t, t[a].parent, n);
      }
    }
  }

  lemma MoveShape(t: Tree, root: Addr, n: Addr, np: Addr, name: seq<Char>)
    requires CanMove(t, root, n, np)
    ensures Shape(Move(t, n, np, name), root) && Move(t, n, np, name).Keys == t.Keys
  {
    var t' := Move(t, n, np, name);
    ParentOutside(t, root, n);
    forall a | a in t' && a != root ensures UpOK(t', a) {
      MoveUp(t, root, n, np, name, a);
    }
    forall a | a in t' ensures DownOK(t', a) {
      MoveDown(t, root, n, np, name, a);
    }
    assert RootOK(t', root);
  }

  function Renamed(t: Tree, n: Addr, name: seq<Char>): Tree
    requires n in t
  {
    t[n := t[n].(name := name)]
  }

  /** The same tree but for the depths. */
  ghost predicate SameButDepth(t: Tree, t': Tree) {
    t.Keys == t'.Keys && forall x {:trigger t[x]} :: x in t ==> t[x].(depth := 0) == t'[x].(depth := 0)
  }

  lemma DetachedDown(t: Tree, root: Addr, n: Addr)
    requires CanDetach(t, root, n)
    ensures UpOK(t, n) && t[n].parent != n && AllDown(Detached(t, n))
  {
    assert UpOK(t, n);
    var t' := Detached(t, n);
    forall x | x in t' ensures DownOK(t', x) {
      assert DownOK(t, x);
      WithoutDistinct(t[x].kids, n);
      assert n in t[x].kids ==> x == t[n].parent;
    }
  }

  /** Detaching, renaming and attaching amount to a move. */
  lemma MoveSteps(t: Tree, root: Addr, n: Addr, np: Addr, name: seq<Char>)
    requires CanMove(t, root, n, np)
    ensures UpOK(t, n) && SameButDepth(Attached(Renamed(Detached(t, n), n, name), np, n), Move(t, n, np, name))
  {
    assert UpOK(t, n) && Under(t, n, n);
    ParentOutside(t, root, n);
  }

  /** No child of `np` but `n` itself carries the name. */
  ghost predicate Unclashing(t: Tree, n: Addr, np: Addr, name: seq<Char>)
    requires np in t
  {
    forall k :: k in t[np].kids && k in t && k != n ==> t[k].name != name
  }

  lemma MovedMembers(t: Tree, root: Addr, n: Addr, np: Addr, a: Addr)
    requires CanMove(t, root, n, np) && a in t
    ensures forall c :: c in MovedKids(t, n, np, a) <==> (c == n && a == np) || (c != n && c in t[a].kids)
  {
    assert DownOK(t, a);
    if a == t[n].parent {
      WithoutDistinct(t[a].kids, n);
    } else if n in t[a].kids {
      KidOfOne(t, root, a, n);
    }
  }

  lemma SiblingsApart(t: Tree, a: Addr, x: Addr, y: Addr)
    requires a in t && SiblingsDistinct(t, a) && x in t[a].kids && y in t[a].kids && x != y && x in t && y in t
    ensures t[x].name != t[y].name
  {
    var i :| 0 <= i < |t[a].kids| && t[a].kids[i] == x;
    var j :| 0 <= j < |t[a].kids| && t[a].kids[j] == y;
    assert i < j || j < i;
  }

  lemma MoveSiblings(t: Tree, root: Addr, n: Addr, np: Addr, name: seq<Char>, a: Addr)
    requires CanMove(t, root, n, np) && a in t && SiblingsDistinct(t, a)
    requires a == np ==> Unclashing(t, n, np, name)
    ensures SiblingsDistinct(Move(t, n, np, name), a)
  {
    var t' := Move(t, n, np, name);
    MovedMembers(t, root, n, np, a);
    MoveDown(t, root, n, np, name, a);
    assert DownOK(t, a);
    var ks' := t'[a].kids;
    forall i, j | 0 <= i < j < |ks'| && ks'[i] in t' && ks'[j] in t' ensures t'[ks'[i]].name != t'[ks'[j]].name {
      assert ks'[i] in ks' && ks'[j] in ks' && ks'[i] != ks'[j];
      if ks'[i] != n && ks'[j] != n {
        SiblingsApart(t, a, ks'[i], ks'[j]);
      }
    }
  }

  /** After a move the names are in order exactly when the new one is a proper name that no
      other child of the new parent carries. */
  lemma MoveNamedIff(t: Tree, root: Addr, n: Addr, np: Addr, name: seq<Char>)
    requires CanMove(t, root, n, np) && Named(t, root)
    ensures Named(Move(t, n, np, name), root) <==> NameOK(name) && Unclashing(t, n, np, name)
  {
    var t' := Move(t, n, np, name);
    if NameOK(name) && Unclashing(t, n, np, name) {
      forall a | a in t' ensures SiblingsDistinct(t', a) {
        assert SiblingsDistinct(t, a);
        MoveSiblings(t, root, n, np, name, a);
      }
    }
    if Named(t', root) {
      MoveUnclashing(t, root, n, np, name);
    }
  }

  lemma MoveUnclashing(t: Tree, root: Addr, n: Addr, np: Addr, name: seq<Char>)
    requires CanMove(t, root, n, np) && Named(Move(t, n, np, name), root)
    ensures NameOK(name) && Unclashing(t, n, np, name)
  {
    var t' := Move(t, n, np, name);
    assert NameOK(t'[n].name);
    MovedMembers(t, root, n, np, np);
    assert SiblingsDistinct(t', np);
    forall k | k in t[np].kids && k in t && k != n ensures t[k].name != name {
      SiblingsApart(t', np, n, k);
    }
  }

  // ---- what a move does to paths -------------------------------------------------

  lemma MoveFindsBelow(t: Tree, root: Addr, n: Addr, np: Addr, name: seq<Char>, cur: Addr, c: seq<Char>)
    requires CanMove(t, root, n, np) && cur in t && Under(t, cur, n)
    ensures var t' := Move(t, n, np, name);
      FindChild(t', t'[cur].kids, c) == FindChild(t, t[cur].kids, c)
  {
    var t' := Move(t, n, np, name);
    ParentOutside(t, root, n);
    assert DownOK(t, cur);
    assert n !in t[cur].kids;
    assert t'[cur].kids == t[cur].kids;
    FindChildSame(t, t', t[cur].kids, c);
  }

  lemma MoveStepBelow(t: Tree, root: Addr, n: Addr, np: Addr, name: seq<Char>, cur: Addr, c: seq<Char>)
    requires CanMove(t, root, n, np) && cur in t && Under(t, cur, n) && (cur == n ==> c != DOTDOT)
    ensures Step(Move(t, n, np, name), cur, c) == Step(t, cur, c)
    ensures Step(t, cur, c) != 0 ==> Step(t, cur, c) in t && Under(t, Step(t, cur, c), n)
  {
    var s := Step(t, cur, c);
    assert cur != root && UpOK(t, cur) by {
      ParentOutside(t, root, n);
    }
    MoveFindsBelow(t, root, n, np, name, cur, c);
    if s != 0 && s != cur && c != DOTDOT {
      KidFacts(t, root, cur, s);
      UnderTrans(t, s, cur, n);
    }
  }

  /** The walk leaves the subtree of `n`: it takes ".." at `n` itself. */
  predicate Leaves(t: Tree, cur: Addr, cs: seq<seq<Char>>, n: Addr)
    decreases |cs|
  {
    cs != [] && cur in t && ((cur == n && cs[0] == DOTDOT) || Leaves(t, Step(t, cur, cs[0]), cs[1..], n))
  }

  /** Every path that starts below the moved node and does not leave its subtree resolves as
      before. */
  lemma {:induction false} MoveKeepsBelow(t: Tree, root: Addr, n: Addr, np: Addr, name: seq<Char>,
                                          cur: Addr, cs: seq<seq<Char>>)
    requires CanMove(t, root, n, np) && cur in t && Under(t, cur, n) && !Leaves(t, cur, cs, n)
    ensures Walk(Move(t, n, np, name), cur, cs) == Walk(t, cur, cs)
    decreases |cs|
  {
    if cs != [] {
      MoveStepBelow(t, root, n, np, name, cur, cs[0]);
      if Step(t, cur, cs[0]) != 0 {
        MoveKeepsBelow(t, root, n, np, name, Step(t, cur, cs[0]), cs[1..]);
      }
    }
  }

  /** FindChild in a list where names are told apart. */
  lemma {:induction false} FindNamed(t: Tree, kids: seq<Addr>, k: Addr)
    requires k in kids && k in t && k != 0
    requires forall j :: j in kids && j in t && j != k ==> t[j].name != t[k].name
    ensures FindChild(t, kids, t[k].name) == k
  {
    if kids[0] != k {
      FindNamed(t, kids[1..], k);
    }
  }

  lemma MoveFinds(t: Tree, root: Addr, n: Addr, np: Addr, name: seq<Char>, cur: Addr, k: Addr)
    requires CanMove(t, root, n, np) && Named(t, root) && Unclashing(t, n, np, name)
    requires cur in t && k in t && k != n
    ensures k in t[cur].kids ==>
      var t' := Move(t, n, np, name);
      FindChild(t', t'[cur].kids, t[k].name) == k == FindChild(t, t[cur].kids, t[k].name)
  {
    if k in t[cur].kids {
      var t' := Move(t, n, np, name);
      KidFacts(t, root, cur, k);
      MovedMembers(t, root, n, np, cur);
      MoveDown(t, root, n, np, name, cur);
      assert SiblingsDistinct(t, cur);
      forall j | j in t[cur].kids && j in t && j != k ensures t[j].name != t[k].name {
        SiblingsApart(t, cur, j, k);
      }
      FindNamed(t, t[cur].kids, k);
      FindNamed(t', t'[cur].kids, k);
    }
  }

  /** One step that avoids `n` finds the same node before and after the move. */
  lemma MoveStepAway(t: Tree, root: Addr, n: Addr, np: Addr, name: seq<Char>, cur: Addr, c: seq<Char>)
    requires CanMove(t, root, n, np) && Named(t, root) && Unclashing(t, n, np, name)
    requires cur in t && cur != n && Step(t, cur, c) != 0 && Step(t, cur, c) != n
    ensures Step(Move(t, n, np, name), cur, c) == Step(t, cur, c)
  {
    var t' := Move(t, n, np, name);
    if Plain(c) {
      MoveFinds(t, root, n, np, name, cur, FindChild(t, t[cur].kids, c));
      StepSame(t, t', cur, c);
    }
  }

  /** The converse: a step after the move that does not lead to `n` was there before. */
  lemma MoveStepBack(t: Tree, root: Addr, n: Addr, np: Addr, name: seq<Char>, cur: Addr, c: seq<Char>)
    requires CanMove(t, root, n, np) && Named(t, root) && Unclashing(t, n, np, name)
    requires cur in t && cur != n
    requires var t' := Move(t, n, np, name); Step(t', cur, c) != 0 && Step(t', cur, c) != n
    ensures Step(t, cur, c) == Step(Move(t, n, np, name), cur, c)
  {
    var t' := Move(t, n, np, name);
    if Plain(c) {
      MovedMembers(t, root, n, np, cur);
      MoveFinds(t, root, n, np, name, cur, FindChild(t', t'[cur].kids, c));
      StepSame(t, t', cur, c);
    }
  }

  /** Paths that resolve and stay clear of the moved node resolve as before. */
  lemma {:induction false} MoveKeepsAway(t: Tree, root: Addr, n: Addr, np: Addr, name: seq<Char>,
                                         cur: Addr, cs: seq<seq<Char>>)
    requires CanMove(t, root, n, np) && Named(t, root) && Unclashing(t, n, np, name)
    requires cur in t && Walk(t, cur, cs) != 0 && !Visits(t, cur, cs, n)
    ensures Walk(Move(t, n, np, name), cur, cs) == Walk(t, cur, cs)
    decreases |cs|
  {
    if cs != [] {
      MoveStepAway(t, root, n, np, name, cur, cs[0]);
      MoveKeepsAway(t, root, n, np, name, Step(t, cur, cs[0]), cs[1..]);
    }
  }

  /** Nothing new resolves except through the moved node. */
  lemma {:induction false} MoveAddsNothing(t: Tree, root: Addr, n: Addr, np: Addr, name: seq<Char>,
                                           cur: Addr, cs: seq<seq<Char>>)
    requires CanMove(t, root, n, np) && Named(t, root) && Unclashing(t, n, np, name)
    requires cur in t
    requires var t' := Move(t, n, np, name); Walk(t', cur, cs) != 0 && !Visits(t', cur, cs, n)
    ensures Walk(t, cur, cs) == Walk(Move(t, n, np, name), cur, cs)
    decreases |cs|
  {
    if cs != [] {
      var t' := Move(t, n, np, name);
      MoveStepBack(t, root, n, np, name, cur, cs[0]);
      MoveAddsNothing(t, root, n, np, name, Step(t', cur, cs[0]), cs[1..]);
    }
  }

  /** The step that led to the moved node from outside leads nowhere afterwards. */
  lemma MoveMisses(t: Tree, root: Addr, n: Addr, np: Addr, name: seq<Char>, cur: Addr, c: seq<Char>)
    requires CanMove(t, root, n, np) && Named(t, root) && FindChild(t, t[np].kids, name) == 0
    requires cur in t && cur !in Sub(t, n) && Step(t, cur, c) == n
    ensures Step(Move(t, n, np, name), cur, c) == 0
  {
    var t' := Move(t, n, np, name);
    ParentOutside(t, root, n);
    assert cur != root ==> UpOK(t, cur);
    assert Under(t, cur, n) || t[cur].parent != n;
    assert n in t[cur].kids && t[n].name == c;
    MovedMembers(t, root, n, np, cur);
    assert SiblingsDistinct(t, cur) && DownOK(t, cur);
    forall k | k in t'[cur].kids && k in t' ensures t'[k].name != c {
      if k != n {
        SiblingsApart(t, cur, k, n);
      }
    }
    FindGone(t', t'[cur].kids, c);
  }

  /** Paths from outside that ran through the moved node no longer resolve. */
  lemma {:induction false} MoveForgetsWalks(t: Tree, root: Addr, n: Addr, np: Addr, name: seq<Char>,
                                            cur: Addr, cs: seq<seq<Char>>)
    requires CanMove(t, root, n, np) && Named(t, root)
    requires FindChild(t, t[np].kids, name) == 0 && Unclashing(t, n, np, name)
    requires cur in t && cur !in Sub(t, n) && Visits(t, cur, cs, n)
    ensures Walk(Move(t, n, np, name), cur, cs) == 0
    decreases |cs|
  {
    assert Under(t, n, n);
    var next := Step(t, cur, cs[0]);
    if next == n {
      MoveMisses(t, root, n, np, name, cur, cs[0]);
    } else {
      StepOutside(t, root, n, cur, cs[0]);
      MoveStepAway(t, root, n, np, name, cur, cs[0]);
      MoveForgetsWalks(t, root, n, np, name, next, cs[1..]);
    }
  }

  /** The moved node is found at its new place. */
  lemma MoveArrives(t: Tree, root: Addr, n: Addr, np: Addr, name: seq<Char>)
    requires CanMove(t, root, n, np) && NameOK(name)
    ensures Step(Move(t, n, np, name), np, name) == n
  {
    var t' := Move(t, n, np, name);
    assert t'[np].kids[0] == n && n != 0;
  }

  /** What walk reports for create: a directory in the tree and a proper name in it. */
  lemma FollowTarget(t: Tree, root: Addr, from: Addr, path: seq<Char>)
    requires Shape(t, root) && from in t
    ensures var l := Follow(t, from, Components(path), true);
      && (l.node != 0 ==> l.node in t)
      && (l.parent != 0 ==> l.parent in t && t[l.parent].kind.Dir? && NameOK(l.name)
                            && l.node == FindChild(t, t[l.parent].kids, l.name))
      && (l.parent == 0 ==> l.name == [])
  {
    var cs := Components(path);
    FollowMeaning(t, root, from, cs, true);
    if HasParent(t, from, cs) {
      var last := cs[|cs| - 1];
      assert last in cs && cs == Init(cs) + [last];
      WalkConcat(t, root, from, Init(cs), [last]);
      StepInTree(t, root, Walk(t, from, Init(cs)), last);
    }
  }

  /** A node can be made at `cs` exactly when all but its last component lead to a directory and the
      last is neither "." nor "..", has at most 31 bytes and is no child's name. */
  lemma CreatesIff(t: Tree, root: Addr, from: Addr, cs: seq<seq<Char>>)
    requires Shape(t, root) && from in t && forall c :: c in cs ==> c != []
    ensures var l := Follow(t, from, cs, true);
      l.node == 0 && l.parent != 0 <==>
        cs != [] && var c, d := cs[|cs| - 1], Walk(t, from, cs[..|cs| - 1]);
        && c != [46] && c != [46, 46] && |c| < 32
        && d in t && t[d].kind.Dir? && forall k :: k in t[d].kids ==> k in t && t[k].name != c
    ensures var l := Follow(t, from, cs, true);
      l.parent != 0 ==> cs != [] && l.parent == Walk(t, from, cs[..|cs| - 1]) && l.name == cs[|cs| - 1]
  {
    FollowMeaning(t, root, from, cs, true);
    if cs != [] {
      var c, d := cs[|cs| - 1], Walk(t, from, Init(cs));
      assert cs == Init(cs) + [c];
      WalkConcat(t, root, from, Init(cs), [c]);
      if d in t {
        assert DownOK(t, d);
        StepInTree(t, root, d, c);
        assert Walk(t, d, [c]) == Walk(t, Step(t, d, c), []);
      }
    }
  }

  /** What a successful create does to path resolution as a whole: the path now leads to the
      new node, and every path that led somewhere still leads there. */
  lemma CreateMeaning(t: Tree, root: Addr, cwd: Addr, path: seq<Char>, a: Addr, kind: Kind)
    requires Shape(t, root) && cwd in t && a !in t && a != 0
    requires var l := Follow(t, StartOf(root, cwd, path), Components(path), true);
      l.node == 0 && l.parent != 0
    ensures var from := StartOf(root, cwd, path);
      var l := Follow(t, from, Components(path), true);
      && l.parent in t
      && var t' := Insert(t, l.parent, a, l.name, kind);
      && t'.Keys == t.Keys + {a}
      && Resolve(t', root, cwd, path) == a
      && forall c, q :: Resolve(t, root, c, q) != 0 ==> Resolve(t', root, c, q) == Resolve(t, root, c, q)
  {
    var from := StartOf(root, cwd, path);
    var cs := Components(path);
    var l := Follow(t, from, cs, true);
    FollowMeaning(t, root, from, cs, true);
    FollowTarget(t, root, from, path);
    var t' := Insert(t, l.parent, a, l.name, kind);
    InsertShape(t, root, l.parent, a, l.name, kind);
    InsertKeepsWalks(t, root, l.parent, a, l.name, kind, from, Init(cs));
    assert cs == Init(cs) + [l.name];
    WalkConcat(t', root, from, Init(cs), [l.name]);
    InsertStep(t, root, l.parent, a, l.name, kind, l.parent, l.name);
    forall c, q | Resolve(t, root, c, q) != 0 ensures Resolve(t', root, c, q) == Resolve(t, root, c, q) {
      InsertKeepsWalks(t, root, l.parent, a, l.name, kind, if q != [] && q[0] == SLASH then root else c, Components(q));
    }
  }

  /** Create, delete and move leave every other node's kind, name and contents alone, a move those
      of what it moves too, but for the one name; a new node is empty and of the kind asked for. */
  lemma ContentsKept(t: Tree, root: Addr, n: Addr, p: Addr, a: Addr, name: seq<Char>, kind: Kind)
    requires Shape(t, root) && n in t && p in t
    ensures a !in t ==>
      var t' := Insert(t, p, a, name, kind);
      SameFiles(t, t', t.Keys) && t'[a].kind == kind && t'[a].name == name && t'[a].bytes == [] && t'[a].data == 0
    ensures SameFiles(t, Delete(t, n), t.Keys - Sub(t, n))
    ensures SameFiles(t, Move(t, n, p, name), t.Keys - {n})
    ensures var t' := Move(t, n, p, name);
      n in t' && t'[n].name == name && SameFiles(t, t'[n := t'[n].(name := t[n].name)], {n})
  {
  }

  /** A new or a moved node comes first on its list, and the others stay in their order. */
  lemma KidsOrder(t: Tree, root: Addr, n: Addr, p: Addr, a: Addr, name: seq<Char>, kind: Kind, q: Addr)
    requires CanDetach(t, root, n) && p in t && q in t
    ensures a !in t ==> Insert(t, p, a, name, kind)[p].kids == [a] + t[p].kids
    ensures var t' := Move(t, n, p, name);
      && t'[p].kids != [] && t'[p].kids[0] == n && Without(t'[q].kids, n) == Without(t[q].kids, n)
    ensures q in Delete(t, n) ==> Delete(t, n)[q].kids == Without(t[q].kids, n)
  {
    assert DownOK(t, q);
    WithoutDistinct(t[q].kids, n);
    if n in t[q].kids {
      KidOfOne(t, root, q, n);
    }
    var ks := Without(t[q].kids, n);
    assert ([n] + ks)[1..] == ks;
  }
}
