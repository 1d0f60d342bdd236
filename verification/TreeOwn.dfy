/** Which heap blocks a tree owns, and what whole runs of filesystem calls keep. */
module TreeOwn {
  import opened Machine
  import opened TreeModel
  import opened TreeOps
  import F = FileModel

  /** A node's file fields: directories have no buffer; a file has one iff its capacity is positive. */
  ghost predicate FileOK(r: Rec) {
    && (r.kind.Dir? ==> r.data == 0)
    && (r.data == 0 <==> r.cap == 0)
    && |r.bytes| <= r.cap && F.CapOK(r.cap)
  }

  /** The blocks that the nodes in `s` own: their own structs and their buffers. */
  ghost function OwnedBy(t: Tree, s: set<Addr>): set<Addr> {
    (set a | a in s && a in t) + (set a | a in s && a in t && t[a].data != 0 :: t[a].data)
  }

  ghost function Owned(t: Tree): set<Addr> {
    OwnedBy(t, t.Keys)
  }

  /** No block is owned twice: ownership is a bijection between blocks and nodes-or-buffers. */
  ghost predicate Apart(t: Tree) {
    && (forall a :: a in t ==> t[a].data !in t)
    && (forall a, b :: a in t && b in t && a != b && t[a].data != 0 ==> t[a].data != t[b].data)
  }

  ghost predicate FilesOK(t: Tree) {
    forall a {:trigger FileOK(t[a])} :: a in t ==> FileOK(t[a])
  }

  ghost predicate Good(t: Tree, root: Addr) {
    Shape(t, root) && Apart(t) && FilesOK(t)
  }

  // ---- write ---------------------------------------------------------------------

  function AsFile(r: Rec): F.File {
    F.File(r.bytes, r.cap, 0, 0)
  }

  predicate Regrows(r: Rec, w: F.Write) {
    r.cap < F.Base(AsFile(r), w) + |w.data|
  }

  /** ramfs_write on file `a`; `buf` is the block kmalloc returns if asked. */
  function WriteTo(t: Tree, a: Addr, w: F.Write, buf: Addr): Tree
    requires a in t
  {
    var f := F.Apply(AsFile(t[a]), w);
    if !F.Succeeds(AsFile(t[a]), w) then t
    else t[a := t[a].(bytes := f.bytes, cap := f.cap, data := if Regrows(t[a], w) then buf else t[a].data)]
  }

  lemma WrittenBytes(t: Tree, a: Addr, w: F.Write, buf: Addr)
    requires a in t && F.Succeeds(AsFile(t[a]), w)
    ensures WriteTo(t, a, w, buf)[a].bytes == (if w.append then t[a].bytes else []) + w.data
  {
  }

  lemma WriteGood(t: Tree, root: Addr, a: Addr, w: F.Write, buf: Addr)
    requires Good(t, root) && a in t && t[a].kind.File?
    requires w.granted ==> buf != 0 && buf !in Owned(t)
    ensures Good(WriteTo(t, a, w, buf), root)
    ensures Named(t, root) ==> Named(WriteTo(t, a, w, buf), root)
    ensures Owned(WriteTo(t, a, w, buf)) ==
      if F.Succeeds(AsFile(t[a]), w) && Regrows(t[a], w) then Owned(t) - {t[a].data} + {buf} else Owned(t)
  {
    if F.Succeeds(AsFile(t[a]), w) {
      WriteRecOK(t[a], w, buf);
      Rewritten(t, root, a, WriteTo(t, a, w, buf)[a]);
      assert WriteTo(t, a, w, buf) == t[a := WriteTo(t, a, w, buf)[a]];
      assert Regrows(t[a], w) ==> buf != t[a].data by {
        assert t[a].data == 0 || t[a].data in Owned(t);
      }
    }
  }

  lemma WriteRecOK(r: Rec, w: F.Write, buf: Addr)
    requires FileOK(r) && r.kind.File? && F.Succeeds(AsFile(r), w)
    requires w.granted ==> buf != 0
    ensures var f := F.Apply(AsFile(r), w);
      FileOK(r.(bytes := f.bytes, cap := f.cap, data := if Regrows(r, w) then buf else r.data))
  {
    if Regrows(r, w) {
      F.NewCapOK(r.cap, F.Base(AsFile(r), w) + |w.data|);
    }
  }

  lemma FilesUpdated(t: Tree, a: Addr, r: Rec)
    requires FilesOK(t) && FileOK(r)
    ensures FilesOK(t[a := r])
  {
    var t' := t[a := r];
    forall b | b in t' ensures FileOK(t'[b]) {
      assert b != a ==> FileOK(t[b]);
    }
  }

  /** Replacing the file fields of one node. */
  lemma Rewritten(t: Tree, root: Addr, a: Addr, r: Rec)
    requires Good(t, root) && a in t && FileOK(r)
    requires r.parent == t[a].parent && r.kids == t[a].kids && r.kind == t[a].kind
    requires r.name == t[a].name && r.depth == t[a].depth
    requires r.data != t[a].data ==> r.data != 0 && r.data !in Owned(t)
    ensures Good(t[a := r], root) && (Named(t, root) ==> Named(t[a := r], root))
    ensures Owned(t[a := r]) == if r.data == t[a].data then Owned(t) else Owned(t) - {t[a].data} + {r.data}
  {
    SameLinks(t, t[a := r], root);
    WriteOwned(t, a, r);
    FilesUpdated(t, a, r);
  }

  /** Changing file fields only leaves the tree and its names alone. */
  lemma SameLinks(t: Tree, t': Tree, root: Addr)
    requires Shape(t, root) && t.Keys == t'.Keys
    requires forall a :: a in t ==> t[a].parent == t'[a].parent && t[a].kids == t'[a].kids
    requires forall a :: a in t ==> t[a].kind == t'[a].kind && t[a].name == t'[a].name && t[a].depth == t'[a].depth
    ensures Shape(t', root) && (Named(t, root) ==> Named(t', root))
  {
    forall a | a in t' && a != root ensures UpOK(t', a) {
      assert UpOK(t, a);
    }
    forall a | a in t' ensures DownOK(t', a) {
      assert DownOK(t, a);
    }
    if Named(t, root) {
      forall a | a in t' ensures SiblingsDistinct(t', a) {
        assert SiblingsDistinct(t, a);
      }
    }
  }

  lemma WriteOwned(t: Tree, a: Addr, r: Rec)
    requires Apart(t) && a in t && 0 !in t
    requires r.data != t[a].data ==> r.data != 0 && r.data !in Owned(t)
    ensures var t' := t[a := r];
      && Apart(t')
      && Owned(t') == if r.data == t[a].data then Owned(t) else Owned(t) - {t[a].data} + {r.data}
  {
    var t' := t[a := r];
    forall b | b in t' && t'[b].data != 0 && b != a ensures t'[b].data in Owned(t) && t'[b].data != t[a].data {
      assert t[b].data in Owned(t);
    }
    forall x | x in Owned(t) && x != t[a].data ensures x in Owned(t') {
      if x !in t {
        var b :| b in t && t[b].data != 0 && t[b].data == x;
        assert b != a && t'[b].data == x;
      }
    }
    if r.data != 0 {
      assert t'[a].data in Owned(t');
    }
    forall x | x in Owned(t') ensures x in Owned(t) || x == r.data {
      if x !in t' {
        var b :| b in t' && t'[b].data != 0 && t'[b].data == x;
        assert b != a ==> t[b].data in Owned(t);
      }
    }
  }

  // ---- ownership through create, delete and move ----------------------------------

  lemma OwnedMore(t: Tree, t': Tree, a: Addr)
    requires Apart(t) && t'.Keys == t.Keys + {a} && a !in Owned(t) && a != 0 && t'[a].data == 0
    requires 0 !in t && forall b :: b in t ==> t'[b].data == t[b].data
    ensures Apart(t') && Owned(t') == Owned(t) + {a}
  {
    forall b | b in t && t[b].data != 0 ensures t[b].data != a {
      assert t[b].data in Owned(t);
    }
    forall x | x in Owned(t) ensures x in Owned(t') {
      if x !in t {
        var b :| b in t && t[b].data != 0 && t[b].data == x;
        assert b in t' && t'[b].data == x;
      }
    }
    forall x | x in Owned(t') && x != a ensures x in Owned(t) {
      if x !in t' {
        var b :| b in t' && t'[b].data != 0 && t'[b].data == x;
        assert b in t && t[b].data == x;
      }
    }
  }

  lemma InsertGood(t: Tree, root: Addr, p: Addr, a: Addr, name: seq<Char>, kind: Kind)
    requires Good(t, root) && p in t && t[p].kind.Dir? && a != 0 && a !in Owned(t)
    ensures CanInsert(t, root, p, a)
    ensures Good(Insert(t, p, a, name, kind), root)
    ensures Owned(Insert(t, p, a, name, kind)) == Owned(t) + {a}
  {
    var t' := Insert(t, p, a, name, kind);
    InsertShape(t, root, p, a, name, kind);
    OwnedMore(t, t', a);
    InsertFiles(t, p, a, name, kind);
  }

  lemma InsertFiles(t: Tree, p: Addr, a: Addr, name: seq<Char>, kind: Kind)
    requires FilesOK(t) && p in t
    ensures FilesOK(Insert(t, p, a, name, kind))
  {
    var t' := Insert(t, p, a, name, kind);
    forall b | b in t' ensures FileOK(t'[b]) {
      assert b != a ==> FileOK(t[b]);
    }
  }

  lemma OwnedLess(t: Tree, t': Tree, s: set<Addr>)
    requires Apart(t) && t'.Keys == t.Keys - s
    requires forall b :: b in t' ==> t'[b].data == t[b].data
    ensures Apart(t') && Owned(t') == Owned(t) - OwnedBy(t, s)
  {
    forall x | x in Owned(t) && x !in OwnedBy(t, s) ensures x in Owned(t') {
      if x !in t {
        var b :| b in t && t[b].data != 0 && t[b].data == x;
        assert b !in s;
        assert b in t' && t'[b].data == x;
      }
    }
    forall x | x in Owned(t') ensures x in Owned(t) && x !in OwnedBy(t, s) {
      if x !in t' {
        var b :| b in t' && t'[b].data != 0 && t'[b].data == x;
        assert b in t && t[b].data == x;
      }
    }
  }

  /** Deleting gives back exactly the blocks of the subtree. */
  lemma DeleteGood(t: Tree, root: Addr, n: Addr)
    requires Good(t, root) && n in t && n != root
    ensures Good(Delete(t, n), root)
    ensures Owned(Delete(t, n)) == Owned(t) - OwnedBy(t, Sub(t, n))
  {
    var t' := Delete(t, n);
    DeleteShape(t, root, n);
    OwnedLess(t, t', Sub(t, n));
    forall b | b in t' ensures FileOK(t'[b]) {
      assert FileOK(t[b]);
    }
  }

  lemma MoveGood(t: Tree, root: Addr, n: Addr, np: Addr, name: seq<Char>)
    requires Good(t, root) && CanMove(t, root, n, np)
    ensures Good(Move(t, n, np, name), root)
    ensures Owned(Move(t, n, np, name)) == Owned(t)
  {
    var t' := Move(t, n, np, name);
    MoveShape(t, root, n, np, name);
    forall b | b in t' ensures FileOK(t'[b]) {
      assert FileOK(t[b]);
    }
    forall b | b in t ensures t'[b].data == t[b].data {
    }
  }

  // ---- subtrees and their blocks ------------------------------------------------------

  /** The subtrees of several nodes together. */
  ghost function SubAll(t: Tree, ks: seq<Addr>): set<Addr> {
    set x, k | k in ks && x in t && Under(t, x, k) :: x
  }

  lemma OwnedDisjoint(t: Tree, s1: set<Addr>, s2: set<Addr>)
    requires Apart(t) && s1 !! s2
    ensures OwnedBy(t, s1) !! OwnedBy(t, s2)
  {
  }

  lemma OwnedUnion(t: Tree, s1: set<Addr>, s2: set<Addr>)
    ensures OwnedBy(t, s1 + s2) == OwnedBy(t, s1) + OwnedBy(t, s2)
  {
  }

  lemma OwnedOne(t: Tree, a: Addr)
    requires a in t
    ensures OwnedBy(t, {a}) == {a} + (if t[a].data == 0 then {} else {t[a].data})
  {
    assert a in {a};
  }

  /** A subtree is its top and the subtrees of the children, which do not overlap. */
  lemma SubSplit(t: Tree, root: Addr, n: Addr)
    requires Shape(t, root) && n in t
    ensures Sub(t, n) == {n} + SubAll(t, t[n].kids) && n !in SubAll(t, t[n].kids)
  {
    assert Under(t, n, n);
    forall x | x in Sub(t, n) && x != n ensures x in SubAll(t, t[n].kids) {
      var k := UnderKid(t, root, x, n);
      assert x in SubAll(t, t[n].kids);
    }
    forall x | x in SubAll(t, t[n].kids) ensures x in Sub(t, n) && x != n {
      var k :| k in t[n].kids && Under(t, x, k);
      KidFacts(t, root, n, k);
      assert x in Sub(t, k);
      UnderDepth(t, x, k);
    }
  }

  lemma SubAllMore(t: Tree, root: Addr, n: Addr, i: nat)
    requires Shape(t, root) && n in t && i < |t[n].kids|
    ensures var ks := t[n].kids;
      && SubAll(t, ks[..i + 1]) == SubAll(t, ks[..i]) + Sub(t, ks[i])
      && SubAll(t, ks[..i]) !! Sub(t, ks[i])
  {
    var ks := t[n].kids;
    assert ks[..i + 1] == ks[..i] + [ks[i]];
    assert DownOK(t, n) && ks[i] in ks;
    forall x | x in SubAll(t, ks[..i]) ensures x !in Sub(t, ks[i]) {
      var k :| k in ks[..i] && Under(t, x, k);
      KidFacts(t, root, n, k);
      KidFacts(t, root, n, ks[i]);
      if x in Sub(t, ks[i]) {
        UnderUnique(t, x, k, ks[i]);
      }
    }
    forall x | x in Sub(t, ks[i]) ensures x in SubAll(t, ks[..i + 1]) {
      assert ks[i] in ks[..i + 1];
    }
    forall x | x in SubAll(t, ks[..i]) ensures x in SubAll(t, ks[..i + 1]) {
      var k :| k in ks[..i] && Under(t, x, k);
      assert k in ks[..i + 1];
    }
  }
}
