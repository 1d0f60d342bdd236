/** fs/ramfs.c: the filesystem on linked nodes, whose structs and file buffers are heap blocks. */
module Ramfs {
  import opened Machine
  import opened Paths
  import opened TreeModel
  import opened TreeOps
  import opened TreePaths
  import opened TreeOwn
  import opened FsHeap
  import F = FileModel
  import HM = HeapModel
  import H = Heap
  import C = CString

  /** struct ramfs_node; `addr` is the heap block it lives in. */
  class Node {
    const addr: Word
    var name: seq<Char>
    var kind: Kind
    var data: Word
    var size: nat
    var capacity: nat
    var parent: Node?
    var children: Node?
    var next: Node?

    /** node_new on zeroed memory. */
    constructor (addr: Word, name: seq<Char>, kind: Kind)
      ensures this.addr == addr && this.name == Truncated(name) && this.kind == kind
      ensures data == 0 && size == 0 && capacity == 0
      ensures parent == null && children == null && next == null
    {
      this.addr := addr;
      this.name := Truncated(name);
      this.kind := kind;
      data, size, capacity := 0, 0, 0;
      parent, children, next := null, null, null;
    }
  }

  class Fs {
    const heap: H.Kheap
    var root: Node
    ghost var t: Tree
    ghost var at: map<Addr, Node>
    ghost var nodes: set<Node>

    ghost function Obj(a: Addr): Node?
      reads this`at
    {
      if a in at then at[a] else null
    }

    ghost function KidObj(kids: seq<Addr>, i: nat): Node?
      reads this`at
    {
      if i < |kids| then Obj(kids[i]) else null
    }

    /** The fields of a node agree with its record. */
    ghost predicate NodeOK(a: Addr)
      requires a in t && a in at && at[a] in nodes
      reads this`t, this`at, this`nodes, this`root, nodes`name, nodes`kind, nodes`data, nodes`size
      reads nodes`capacity, nodes`parent, nodes`children, nodes`next
    {
      var n, r := at[a], t[a];
      && n.addr == a && n.name == r.name && n.kind == r.kind
      && n.data == r.data && n.size == |r.bytes| && n.capacity == r.cap
      && n.parent == Obj(r.parent) && n.children == KidObj(r.kids, 0)
    }

    /** Child `i` of `a` points to child `i + 1`, and the last one to NULL. */
    ghost predicate NextOK(a: Addr, i: nat)
      requires a in t && i < |t[a].kids|
      reads this`t, this`at, this`nodes, this`root, nodes`name, nodes`kind, nodes`data, nodes`size
      reads nodes`capacity, nodes`parent, nodes`children, nodes`next
    {
      Obj(t[a].kids[i]) != null && Obj(t[a].kids[i]) in nodes ==>
        Obj(t[a].kids[i]).next == KidObj(t[a].kids, i + 1)
    }

    /** The sibling chain runs through the child list in order. */
    ghost predicate ChainOK(a: Addr)
      requires a in t
      reads this`t, this`at, this`nodes, this`root, nodes`name, nodes`kind, nodes`data, nodes`size
      reads nodes`capacity, nodes`parent, nodes`children, nodes`next
    {
      forall i {:trigger NextOK(a, i)} :: 0 <= i < |t[a].kids| ==> NextOK(a, i)
    }

    ghost predicate Linked()
      reads this`t, this`at, this`nodes, this`root, nodes`name, nodes`kind, nodes`data, nodes`size
      reads nodes`capacity, nodes`parent, nodes`children, nodes`next
    {
      && at.Keys == t.Keys
      && (forall a {:trigger at[a]} :: a in at ==> at[a] in nodes)
      && root.addr in at && at[root.addr] == root
      && (forall a {:trigger NodeOK(a)} :: a in t ==> NodeOK(a))
      && (forall a {:trigger ChainOK(a)} :: a in t ==> ChainOK(a))
    }

    /** Every owned block is live, node blocks are large enough, and file contents are in the heap. */
    ghost predicate Backed()
      reads this, heap, heap.mem
    {
      && heap.Valid()
      && Owned(t) <= heap.Ptrs()
      && AllHeld(t, HM.Live(heap.blocks), heap.mem[..], heap.start)
    }

    ghost predicate Valid()
      reads this, nodes, heap, heap.mem
    {
      Good(t, root.addr) && Linked() && Backed()
    }

    /** ramfs_init, up to the root directory: the heap must have room for one node. */
    constructor (h: H.Kheap)
      requires h.Valid() && !Refuses(h.blocks, NODE_SIZE)
      modifies h`blocks, h.mem
      ensures Valid() && Named(t, root.addr) && heap == h && fresh(root)
      ensures t == map[root.addr := Rec([], Dir, 0, [], 0, 0, [], 0)]
      ensures root.addr !in old(h.Ptrs()) && h.Ptrs() == old(h.Ptrs()) + Owned(t)
    {
      heap := h;
      var p := AllocateZeroed(h, NODE_SIZE);
      var r := new Node(p, [], Dir);
      root := r;
      t := RootOnly(p);
      at := map[p := r];
      nodes := {r};
      new;
      RootOnlyGood(p, HM.Live(h.blocks), h.mem[..], h.start);
    }

    /** A node currently in the tree. */
    ghost predicate Has(n: Node)
      reads this
    {
      n.addr in at && at[n.addr] == n
    }

    lemma NullObj()
      requires Linked() && Shape(t, root.addr)
      ensures Obj(0) == null
    {
    }

    /** find_child. */
    method FindChild(dir: Node, name: seq<Char>) returns (c: Node?)
      requires Linked() && Shape(t, root.addr) && Has(dir)
      ensures Linked()
      ensures c == Obj(TreeModel.FindChild(t, t[dir.addr].kids, name))
      ensures c == null <==> TreeModel.FindChild(t, t[dir.addr].kids, name) == 0
      ensures c != null ==> Has(c) && c.addr == TreeModel.FindChild(t, t[dir.addr].kids, name)
    {
      ghost var kids := t[dir.addr].kids;
      ghost var i := 0;
      assert DownOK(t, dir.addr) && NodeOK(dir.addr);
      c := dir.children;
      while c != null
        invariant i <= |kids| && c == KidObj(kids, i)
        invariant TreeModel.FindChild(t, kids[i..], name) == TreeModel.FindChild(t, kids, name)
        decreases |kids| - i
      {
        assert kids[i] in kids;
        assert NodeOK(kids[i]) && ChainOK(dir.addr) && NextOK(dir.addr, i);
        assert kids[i..][1..] == kids[i + 1..];
        if c.name == name {
          return;
        }
        c := c.next;
        i := i + 1;
      }
    }

    /** The step of walk for one component; `notDir` when a name is looked up in a file. */
    method StepTo(cur: Node, component: seq<Char>) returns (next: Node?, notDir: bool)
      requires Linked() && Shape(t, root.addr) && Has(cur) && |component| < NAME_MAX
      ensures Linked()
      ensures next == Obj(Step(t, cur.addr, component))
      ensures next == null <==> Step(t, cur.addr, component) == 0
      ensures next != null ==> Has(next) && next.addr == Step(t, cur.addr, component)
      ensures notDir <==> Plain(component) && t[cur.addr].kind.File?
    {
      assert NodeOK(cur.addr);
      StepInTree(t, root.addr, cur.addr, component);
      notDir := false;
      if component == DOT {
        next := cur;
      } else if component == DOTDOT {
        next := if cur.parent != null then cur.parent else cur;
      } else if cur.kind != Dir {
        next, notDir := null, true;
      } else {
        next := FindChild(cur, component);
        return;
      }
      if next != null {
        assert NodeOK(Step(t, cur.addr, component));
      }
    }

    /** One turn of the loop in walk: the next component and where it leads. No component means
        the path is used up; `bad` that the component is too long or looked up in a file. */
    method Advance(cur: Node, path: seq<Char>, p: nat)
        returns (component: seq<Char>, rest: nat, next: Node?, bad: bool)
      requires Linked() && Shape(t, root.addr) && Has(cur) && p <= |path|
      ensures Linked()
      ensures p <= rest <= |path| && (component != [] ==> p < rest)
      ensures Components(path[p..]) == if component == [] then [] else [component] + Components(path[rest..])
      ensures rest == |path| <==> Components(path[rest..]) == []
      ensures component != [] ==>
        && next == Obj(Step(t, cur.addr, component))
        && (next == null <==> Step(t, cur.addr, component) == 0)
        && (next != null ==> Has(next) && next.addr == Step(t, cur.addr, component))
        && (bad <==> NAME_MAX <= |component| || (Plain(component) && t[cur.addr].kind.File?))
    {
      var q := SkipSlashes(path, p);
      if q == |path| {
        return [], q, null, false;
      }
      assert Linked();
      component, rest := NextComponent(path, q);
      assert Linked();
      if NAME_MAX <= |component| {
        return component, rest, null, true;
      }
      next, bad := StepTo(cur, component);
    }

    /** walk: resolve a path component by component. */
    method Walk(cwd: Node, path: seq<Char>, wantParent: bool)
        returns (r: Node?, parent: Node?, name: seq<Char>)
      requires Linked() && Shape(t, root.addr) && Has(cwd)
      ensures var l := Follow(t, StartOf(root.addr, cwd.addr, path), Components(path), wantParent);
        r == Obj(l.node) && parent == Obj(l.parent) && name == l.name
      ensures Linked()
      ensures (r != null ==> Has(r)) && (parent != null ==> Has(parent))
    {
      var cur: Node := if path != [] && path[0] == SLASH then root else cwd;
      var p := 0;
      parent, name := null, [];
      ghost var l := Follow(t, cur.addr, Components(path), wantParent);
      while true
        invariant p <= |path| && Has(cur) && Linked()
        invariant Follow(t, cur.addr, Components(path[p..]), wantParent) == l
        decreases |path| - p
      {
        var component, rest, next, bad := Advance(cur, path, p);
        if component == [] {
          return cur, null, [];
        }
        FollowUnfold(t, root.addr, cur.addr, component, Components(path[rest..]), wantParent);
        if bad {
          return null, null, [];
        }
        var last := rest == |path|;
        if last && wantParent && Plain(component) {
          return next, cur, component;
        }
        if next == null {
          return null, null, [];
        }
        cur := next;
        p := rest;
      }
    }

    /** ramfs_resolve. */
    method Resolve(cwd: Node?, path: seq<Char>) returns (r: Node?)
      requires Linked() && Shape(t, root.addr) && (cwd != null ==> Has(cwd))
      ensures r == Obj(TreeModel.Resolve(t, root.addr, if cwd == null then root.addr else cwd.addr, path))
      ensures Linked() && (r != null ==> Has(r))
    {
      var from := if cwd == null then root else cwd;
      var parent, name;
      r, parent, name := Walk(from, path, false);
      FollowMeaning(t, root.addr, StartOf(root.addr, from.addr, path), Components(path), false);
    }

    /** The block of a new node, taken while the filesystem stays as it is. */
    method NodeBlock() returns (p: Word)
      requires Valid()
      modifies heap`blocks, heap.mem
      ensures Valid()
      ensures p == 0 <==> old(Refuses(heap.blocks, NODE_SIZE))
      ensures p == 0 ==> heap.blocks == old(heap.blocks)
      ensures p != 0 ==>
        && p !in old(heap.Ptrs()) && heap.Ptrs() == old(heap.Ptrs()) + {p}
        && NodeHeld(HM.Live(heap.blocks), heap.start, p)
    {
      p := AllocateZeroed(heap, NODE_SIZE);
      AllHeldKept(t, old(HM.Live(heap.blocks)), HM.Live(heap.blocks), old(heap.mem[..]), heap.mem[..], heap.start);
    }

    /** node_new: a zeroed block for the struct, or NULL when the heap is full. */
    method NodeNew(name: seq<Char>, kind: Kind) returns (n: Node?)
      requires Valid()
      modifies heap`blocks, heap.mem
      ensures Valid()
      ensures n == null <==> old(Refuses(heap.blocks, NODE_SIZE))
      ensures n == null ==> heap.blocks == old(heap.blocks)
      ensures n != null ==>
        && fresh(n) && n.addr != 0 && n.addr !in old(heap.Ptrs()) && heap.Ptrs() == old(heap.Ptrs()) + {n.addr}
        && NodeHeld(HM.Live(heap.blocks), heap.start, n.addr)
        && n.name == Truncated(name) && n.kind == kind && n.data == 0 && n.size == 0 && n.capacity == 0
        && n.parent == null && n.children == null && n.next == null
    {
      var p := NodeBlock();
      if p == 0 {
        return null;
      }
      n := new Node(p, name, kind);
    }

    /** attach: a node without a parent becomes the first child of `parent`. */
    method Attach(parent: Node, child: Node)
      requires Linked() && AllDown(t) && 0 !in t && Has(parent) && Has(child) && parent != child
      requires t[child.addr].parent == 0
      modifies this`t, parent`children, child`parent, child`next
      ensures Linked() && t == Attached(old(t), parent.addr, child.addr)
    {
      child.parent := parent;
      child.next := parent.children;
      parent.children := child;
      t := Attached(t, parent.addr, child.addr);
      AttachLinked(child, parent.addr);
    }

    /** The writes of attach, and no others, took place. */
    twostate predicate AttachDone(child: Node, new p: Addr)
      requires p in old(at) && old(at)[p] in old(nodes)
      reads this, nodes, child
    {
      var parent := old(at)[p];
      && at == old(at) && nodes == old(nodes) && root == old(root)
      && (forall n :: n in nodes ==> SameFile(n))
      && (forall n :: n in nodes && n != child ==> n.parent == old(n.parent) && n.next == old(n.next))
      && (forall n :: n in nodes && n != parent ==> n.children == old(n.children))
      && child.parent == parent && child.next == old(parent.children)
      && (parent in nodes ==> parent.children == child)
    }

    twostate lemma AttachLinked(child: Node, new p: Addr)
      requires old(Linked()) && AllDown(old(t)) && 0 !in old(t) && old(Has(child)) && p in old(at) && p != child.addr
      requires old(at)[p] in old(nodes) && child.addr in old(t) && old(t)[child.addr].parent == 0
      requires AttachDone(child, p) && t == Attached(old(t), p, child.addr)
      ensures Linked()
    {
      assert old(NodeOK(p)) && old(NodeOK(child.addr));
      forall x | x in t ensures NodeOK(x) {
        assert old(NodeOK(x));
      }
      forall x, i | x in t && 0 <= i < |t[x].kids| ensures NextOK(x, i) {
        AttachChain(x, i, child, p);
      }
      forall x | x in t ensures ChainOK(x) {
      }
    }

    /** After the writes of attach every child points to its successor on the longer list. */
    twostate lemma AttachChain(new x: Addr, new i: nat, child: Node, new p: Addr)
      requires old(Linked()) && AllDown(old(t)) && 0 !in old(t) && old(Has(child)) && p in old(at) && p != child.addr
      requires old(at)[p] in old(nodes) && child.addr in old(t) && old(t)[child.addr].parent == 0
      requires AttachDone(child, p) && t == Attached(old(t), p, child.addr)
      requires x in t && i < |t[x].kids|
      ensures NextOK(x, i)
    {
      var a, kids := child.addr, old(t)[p].kids;
      assert DownOK(old(t), x) && DownOK(old(t), p) && old(NodeOK(p)) && old(NodeOK(a));
      if x == p && i == 0 {
        assert KidObj(t[x].kids, 1) == old(KidObj(t[p].kids, 0));
      } else {
        var j := if x == p then i - 1 else i;
        var c := old(t)[x].kids[j];
        assert t[x].kids[i] == c && c in old(t)[x].kids && old(NodeOK(c)) && c != a;
        NextKept(x, i, j);
      }
    }

    /** detach: take a node off its parent's list. */
    method Detach(node: Node)
      requires Linked() && AllDown(t) && 0 !in t && Has(node)
      requires t[node.addr].parent in t && t[node.addr].parent != node.addr
      requires node.addr in t[t[node.addr].parent].kids
      modifies this`t, nodes
      ensures Linked() && t == Detached(old(t), node.addr)
    {
      ghost var a, p := node.addr, t[node.addr].parent;
      ghost var kids := t[p].kids;
      assert NodeOK(a) && NodeOK(p) && DownOK(t, p);
      var parent := node.parent;
      var prev: Node? := null;
      var c := parent.children;
      ghost var i := 0;
      while c != null && c != node
        invariant i <= |kids| && c == KidObj(kids, i) && a !in kids[..i]
        invariant if i == 0 then prev == null else prev == KidObj(kids, i - 1) && prev != null
        decreases |kids| - i
      {
        assert kids[i] in kids && NodeOK(kids[i]) && ChainOK(p) && NextOK(p, i);
        prev := c;
        c := c.next;
        i := i + 1;
      }
      KidIndex(kids, a, i);
      assert 0 < i ==> kids[i - 1] in kids && NodeOK(kids[i - 1]);
      Unlink(prev, node, i);
    }

    /** `node` is child `i` of its parent. */
    ghost predicate AtIndex(node: Node, i: nat)
      reads this
    {
      && Has(node) && node.addr in t
      && var p := t[node.addr].parent;
        && p in t && p != node.addr && i < |t[p].kids| && t[p].kids[i] == node.addr
        && (0 < i ==> t[p].kids[i - 1] in at)
    }

    /** The child before it, or NULL. */
    ghost function Before(node: Node, i: nat): Node?
      requires AtIndex(node, i)
      reads this
    {
      if i == 0 then null else Obj(t[t[node.addr].parent].kids[i - 1])
    }

    /** detach past its search. */
    method Unlink(prev: Node?, node: Node, ghost i: nat)
      requires Linked() && AllDown(t) && 0 !in t && AtIndex(node, i) && prev == Before(node, i)
      requires node in nodes && node.parent != null && node.parent in nodes && node.parent != node
      requires prev != null ==> prev in nodes && prev != node
      requires prev == null <==> i == 0
      modifies this`t, nodes
      ensures Linked() && t == Detached(old(t), node.addr)
    {
      CutOut(prev, node, i);
      UnlinkLinked(node, i);
    }

    /** The writes of detach. */
    method CutOut(prev: Node?, node: Node, ghost i: nat)
      requires AtIndex(node, i) && prev == Before(node, i)
      requires node in nodes && node.parent != null && node.parent in nodes && node.parent != node
      requires prev != null ==> prev in nodes && prev != node
      modifies this`t, nodes`parent, nodes`children, nodes`next
      ensures Unlinked(node, i) && t == Detached(old(t), node.addr)
    {
      if prev == null {
        node.parent.children := node.next;
      } else {
        prev.next := node.next;
      }
      node.parent := null;
      node.next := null;
      t := Detached(t, node.addr);
    }

    /** The writes of detach, and no others, took place. */
    twostate predicate Unlinked(node: Node, new i: nat)
      requires old(AtIndex(node, i))
      reads this, nodes
    {
      var prev, parent := old(Before(node, i)), old(node.parent);
      && at == old(at) && nodes == old(nodes) && root == old(root)
      && (forall n :: n in nodes ==> SameFile(n))
      && (forall n :: n in nodes && n != node ==> n.parent == old(n.parent))
      && (forall n :: n in nodes && n != parent ==> n.children == old(n.children))
      && (forall n :: n in nodes && n != prev && n != node ==> n.next == old(n.next))
      && (node in nodes ==> node.parent == null)
      && (prev in nodes && prev != null ==> prev.next == old(node.next))
      && (parent != null && parent in nodes ==>
          parent.children == if prev == null then old(node.next) else old(node.parent.children))
    }

    twostate lemma UnlinkLinked(node: Node, new i: nat)
      requires old(Linked()) && AllDown(old(t)) && 0 !in old(t) && old(AtIndex(node, i))
      requires Unlinked(node, i) && t == Detached(old(t), node.addr)
      ensures Linked()
    {
      forall x | x in t ensures NodeOK(x) {
        UnlinkNode(x, node, i);
      }
      forall x, j | x in t && 0 <= j < |t[x].kids| ensures NextOK(x, j) {
        UnlinkChain(x, j, node, i);
      }
      forall x | x in t ensures ChainOK(x) {
      }
    }

    twostate predicate SameFile(n: Node)
      reads n
    {
      && n.name == old(n.name) && n.kind == old(n.kind)
      && n.data == old(n.data) && n.size == old(n.size) && n.capacity == old(n.capacity)
    }

    /** After the writes of detach every node agrees with its record. */
    twostate lemma UnlinkNode(new x: Addr, node: Node, new i: nat)
      requires old(Linked()) && AllDown(old(t)) && 0 !in old(t) && old(AtIndex(node, i))
      requires Unlinked(node, i) && t == Detached(old(t), node.addr)
      requires x in t
      ensures NodeOK(x)
    {
      var a, p := node.addr, old(t)[node.addr].parent;
      var kids := old(t)[p].kids;
      assert DownOK(old(t), p) && old(NodeOK(a)) && old(NodeOK(x)) && old(NodeOK(p));
      assert old(ChainOK(p)) && old(NextOK(p, i));
      WithoutIndex(kids, i);
    }

    /** The child before the one taken off now points to the one after it. */
    twostate lemma UnlinkBefore(node: Node, new i: nat)
      requires old(Linked()) && AllDown(old(t)) && 0 !in old(t) && old(AtIndex(node, i)) && 0 < i
      requires Unlinked(node, i) && t == Detached(old(t), node.addr)
      ensures var p := old(t)[node.addr].parent; p in t && i - 1 < |t[p].kids| && NextOK(p, i - 1)
    {
      var p := old(t)[node.addr].parent;
      var kids := old(t)[p].kids;
      assert DownOK(old(t), p) && old(NodeOK(node.addr)) && old(ChainOK(p)) && old(NextOK(p, i));
      WithoutIndex(kids, i);
      assert i + 1 < |kids| ==> kids[i + 1] in kids;
    }

    /** Where a child of `x` stood before the i-th child `a` of `p` was taken off. */
    lemma DetachedIndex(t0: Tree, a: Addr, i: nat, x: Addr, j: nat)
      requires a in t0 && t0[a].parent in t0 && t0[a].parent != a && x in t0
      requires i < |t0[t0[a].parent].kids| && t0[t0[a].parent].kids[i] == a
      requires Distinct(t0[t0[a].parent].kids) && (x != t0[a].parent ==> a !in t0[x].kids)
      requires j < |Detached(t0, a)[x].kids| && !(x == t0[a].parent && j + 1 == i)
      ensures var ks, ks' := t0[x].kids, Detached(t0, a)[x].kids;
        var k := if x == t0[a].parent && i <= j then j + 1 else j;
        && k < |ks| && ks'[j] == ks[k] && ks[k] != a
        && (j + 1 == |ks'| <==> k + 1 == |ks|) && (j + 1 < |ks'| ==> ks'[j + 1] == ks[k + 1])
    {
      WithoutIndex(t0[t0[a].parent].kids, i);
    }

    /** Any other child points where it did. */
    twostate lemma UnlinkOther(new x: Addr, new j: nat, node: Node, new i: nat)
      requires old(Linked()) && AllDown(old(t)) && 0 !in old(t) && old(AtIndex(node, i))
      requires Unlinked(node, i) && t == Detached(old(t), node.addr)
      requires x in t && j < |t[x].kids| && !(x == old(t)[node.addr].parent && j + 1 == i)
      ensures NextOK(x, j)
    {
      var a, p := node.addr, old(t)[node.addr].parent;
      var kids := old(t)[p].kids;
      assert DownOK(old(t), p) && DownOK(old(t), x) && old(NodeOK(a));
      assert 0 < i ==> kids[i - 1] in kids && old(NodeOK(kids[i - 1]));
      DetachedIndex(old(t), a, i, x, j);
      var k := if x == p && i <= j then j + 1 else j;
      var c := old(t)[x].kids[k];
      assert c in old(t)[x].kids && old(NodeOK(c));
      NextKept(x, j, k);
    }

    /** After the writes of detach every child points to its successor on the shorter list. */
    twostate lemma UnlinkChain(new x: Addr, new j: nat, node: Node, new i: nat)
      requires old(Linked()) && AllDown(old(t)) && 0 !in old(t) && old(AtIndex(node, i))
      requires Unlinked(node, i) && t == Detached(old(t), node.addr)
      requires x in t && j < |t[x].kids|
      ensures NextOK(x, j)
    {
      if x == old(t)[node.addr].parent && j + 1 == i {
        UnlinkBefore(node, i);
      } else {
        UnlinkOther(x, j, node, i);
      }
    }

    /** A node position that has not been passed is still ahead. */
    lemma KidIndex(kids: seq<Addr>, a: Addr, i: nat)
      requires i <= |kids| && a in kids && a !in kids[..i]
      requires Linked() && a in t && (forall k :: k in kids ==> k in t)
      requires KidObj(kids, i) == null || KidObj(kids, i) == at[a]
      ensures i < |kids| && kids[i] == a
    {
      var j :| 0 <= j < |kids| && kids[j] == a;
      assert i <= j;
      assert NodeOK(a) && kids[i] in kids && NodeOK(kids[i]);
    }

    /** A node that is in the records, but not yet on any list. */
    method Adopt(n: Node, ghost depth: nat)
      requires Linked() && Shape(t, root.addr) && n !in nodes && n.addr !in t && n.addr != 0
      requires n.data == 0 && n.size == 0 && n.capacity == 0 && n.children == null && n.parent == null
      modifies this`t, this`at, this`nodes
      ensures Linked() && AllDown(t) && at == old(at)[n.addr := n] && nodes == old(nodes) + {n}
      ensures t == old(t)[n.addr := Rec(n.name, n.kind, 0, [], depth, 0, [], 0)]
    {
      t := t[n.addr := Rec(n.name, n.kind, 0, [], depth, 0, [], 0)];
      at := at[n.addr := n];
      nodes := nodes + {n};
      forall x | x in t ensures NodeOK(x) && DownOK(t, x) {
        if x != n.addr {
          assert old(NodeOK(x)) && DownOK(old(t), x);
          assert x != root.addr ==> UpOK(old(t), x);
          assert 0 < |t[x].kids| ==> t[x].kids[0] in t[x].kids;
        }
      }
      forall x, i | x in t && 0 <= i < |t[x].kids| ensures NextOK(x, i) {
        assert DownOK(old(t), x);
        NextKept(x, i, i);
      }
      forall x | x in t ensures ChainOK(x) {
      }
    }

    /** Attaching a node that is not in the tree yet. */
    method AttachNew(parent: Node, n: Node)
      requires Linked() && Shape(t, root.addr) && Has(parent) && t[parent.addr].kind.Dir?
      requires n !in nodes && n.addr !in t && n.addr != 0
      requires n.data == 0 && n.size == 0 && n.capacity == 0 && n.children == null && n.parent == null
      modifies this`t, this`at, this`nodes, parent`children, n`parent, n`next
      ensures Linked()
      ensures t == Insert(old(t), parent.addr, n.addr, n.name, n.kind)
      ensures at == old(at)[n.addr := n] && nodes == old(nodes) + {n}
    {
      Adopt(n, t[parent.addr].depth + 1);
      Attach(parent, n);
    }

    /** A child that stays on the list of `x`, with the same successor, is still linked right. */
    twostate lemma NextKept(new x: Addr, new i: nat, new j: nat)
      requires old(Linked()) && x in old(t) && DownOK(old(t), x)
      requires x in t && i < |t[x].kids| && j < |old(t)[x].kids| && t[x].kids[i] == old(t)[x].kids[j]
      requires i + 1 == |t[x].kids| <==> j + 1 == |old(t)[x].kids|
      requires i + 1 < |t[x].kids| ==> t[x].kids[i + 1] == old(t)[x].kids[j + 1]
      requires forall c :: c in old(at) ==> c in at && at[c] == old(at)[c]
      requires forall n :: n == old(at)[old(t)[x].kids[j]] ==> n.next == old(n.next)
      ensures NextOK(x, i)
    {
      assert old(ChainOK(x)) && old(NextOK(x, j));
      var ks := old(t)[x].kids;
      assert ks[j] in ks && (j + 1 < |ks| ==> ks[j + 1] in ks);
    }

    /** The end of ramfs_create: allocate the node and attach it. */
    method CreateIn(parent: Node, name: seq<Char>, kind: Kind) returns (n: Node?)
      requires Valid() && Has(parent) && t[parent.addr].kind.Dir? && NameOK(name)
      modifies this`t, this`at, this`nodes, parent`children, heap`blocks, heap.mem
      ensures Valid()
      ensures n == null <==> old(Refuses(heap.blocks, NODE_SIZE))
      ensures n == null ==> t == old(t) && at == old(at) && heap.blocks == old(heap.blocks)
      ensures n != null ==>
        && fresh(n) && n.addr != 0 && n.addr !in old(heap.Ptrs())
        && t == Insert(old(t), parent.addr, n.addr, name, kind) && at == old(at)[n.addr := n]
        && heap.Ptrs() == old(heap.Ptrs()) + {n.addr} && Owned(t) == old(Owned(t)) + {n.addr}
      ensures n != null && old(Named(t, root.addr)) && TreeModel.FindChild(old(t), old(t)[parent.addr].kids, name) == 0
        ==> Named(t, root.addr)
    {
      n := NodeNew(name, kind);
      if n != null {
        InsertDone(t, root.addr, parent.addr, n.addr, name, kind,
                   HM.Live(heap.blocks), heap.mem[..], old(heap.Ptrs()), heap.start);
        AttachNew(parent, n);
      }
    }

    /** Where create would put a new node: the walk with its parent, from `cwd` or the root. */
    ghost function Target(cwd: Node?, path: seq<Char>): Last
      requires Linked() && (cwd != null ==> Has(cwd))
      reads this, nodes
    {
      Follow(t, StartOf(root.addr, if cwd == null then root.addr else cwd.addr, path), Components(path), true)
    }

    /** A path can be created when it does not resolve and its parent directory exists. */
    ghost predicate Creatable(cwd: Node?, path: seq<Char>)
      requires Linked() && (cwd != null ==> Has(cwd))
      reads this, nodes
    {
      Target(cwd, path).node == 0 && Target(cwd, path).parent != 0
    }

    /** Which paths these are. */
    lemma CreatableIff(cwd: Node?, path: seq<Char>)
      requires Linked() && Shape(t, root.addr) && (cwd != null ==> Has(cwd) && cwd.addr in t)
      ensures var cs := Components(path);
        var from := if cwd == null || (path != [] && path[0] == 47) then root.addr else cwd.addr;
        Creatable(cwd, path) <==>
          cs != [] && var c, d := cs[|cs| - 1], TreeModel.Walk(t, from, cs[..|cs| - 1]);
          && c != [46] && c != [46, 46] && |c| < 32
          && d in t && t[d].kind.Dir? && forall k :: k in t[d].kids ==> k in t && t[k].name != c
    {
      CreatesIff(t, root.addr, StartOf(root.addr, if cwd == null then root.addr else cwd.addr, path), Components(path));
    }

    /** ramfs_create. */
    method Create(cwd: Node?, path: seq<Char>, kind: Kind) returns (n: Node?)
      requires Valid() && (cwd != null ==> Has(cwd))
      modifies this`t, this`at, this`nodes, nodes, heap`blocks, heap.mem
      ensures Valid()
      ensures n != null <==> old(Creatable(cwd, path) && !Refuses(heap.blocks, NODE_SIZE))
      ensures n == null ==> t == old(t) && at == old(at) && heap.blocks == old(heap.blocks)
      ensures n != null ==>
        var l := old(Target(cwd, path));
        && fresh(n) && n.addr !in old(heap.Ptrs()) && l.parent in old(t)
        && t == Insert(old(t), l.parent, n.addr, l.name, kind) && at == old(at)[n.addr := n]
        && heap.Ptrs() == old(heap.Ptrs()) + {n.addr} && Owned(t) == old(Owned(t)) + {n.addr}
      ensures old(Named(t, root.addr)) ==> Named(t, root.addr)
    {
      var from := if cwd == null then root else cwd;
      ghost var l := Target(cwd, path);
      var existing, parent, name := Walk(from, path, true);
      FollowTarget(t, root.addr, StartOf(root.addr, from.addr, path), path);
      assert l.parent != 0 ==> NodeOK(l.parent);
      if existing != null || parent == null || name == [] || parent.kind != Dir {
        assert !old(Creatable(cwd, path));
        return null;
      }
      assert parent.addr == l.parent && name == l.name;
      n := CreateIn(parent, name, kind);
    }

    // ---- move --------------------------------------------------------------------

    /** Nothing but the depths of the records changed, and no node at all. */
    twostate lemma Relabelled()
      requires old(Linked()) && at == old(at) && nodes == old(nodes) && root == old(root)
      requires SameButDepth(old(t), t)
      requires forall n :: n in nodes ==> SameFile(n)
      requires forall n :: n in nodes ==>
        n.parent == old(n.parent) && n.children == old(n.children) && n.next == old(n.next)
      ensures Linked()
    {
      forall x | x in t ensures NodeOK(x) && ChainOK(x) {
        assert old(NodeOK(x)) && old(ChainOK(x));
        assert old(t)[x].(depth := 0) == t[x].(depth := 0);
        forall i | 0 <= i < |t[x].kids| ensures NextOK(x, i) {
          assert old(NextOK(x, i));
        }
      }
    }

    /** The depths of the records are not stored anywhere. */
    ghost method Relabel(t1: Tree)
      requires Linked() && SameButDepth(t, t1)
      modifies this`t
      ensures Linked() && t == t1
    {
      t := t1;
      Relabelled();
    }

    /** The strlcpy into a node's name field. */
    method Rename(node: Node, name: seq<Char>)
      requires Linked() && Has(node)
      modifies this`t, node`name
      ensures Linked() && t == Renamed(old(t), node.addr, Truncated(name))
    {
      assert NodeOK(node.addr);
      node.name := Truncated(name);
      t := Renamed(t, node.addr, Truncated(name));
      forall x | x in t ensures NodeOK(x) && ChainOK(x) {
        assert old(NodeOK(x)) && old(ChainOK(x));
        forall i | 0 <= i < |t[x].kids| ensures NextOK(x, i) {
          assert old(NextOK(x, i));
        }
      }
    }

    /** The loop of ramfs_move that climbs from the new parent to the root. */
    method Climbs(from: Node, node: Node) returns (yes: bool)
      requires Linked() && Shape(t, root.addr) && Has(from) && Has(node)
      ensures yes <==> Under(t, from.addr, node.addr)
    {
      var p: Node? := from;
      while p != null
        invariant p != null ==> Has(p) && (Under(t, from.addr, node.addr) <==> Under(t, p.addr, node.addr))
        invariant p == null ==> !Under(t, from.addr, node.addr)
        decreases if p == null then 0 else t[p.addr].depth + 1
      {
        assert NodeOK(p.addr) && (p.addr != root.addr ==> UpOK(t, p.addr) && NodeOK(t[p.addr].parent));
        if p == node {
          return true;
        }
        p := p.parent;
      }
      return false;
    }

    method DetachRenamed(node: Node, newName: seq<Char>)
      requires Linked() && Has(node) && CanDetach(t, root.addr, node.addr)
      modifies this`t, nodes
      ensures Linked() && old(t)[node.addr].parent in old(t) && AllDown(t)
      ensures t == Renamed(Detached(old(t), node.addr), node.addr, Truncated(newName))
    {
      DetachedDown(t, root.addr, node.addr);
      Detach(node);
      Rename(node, newName);
      forall x | x in t ensures DownOK(t, x) {
        assert DownOK(Detached(old(t), node.addr), x);
      }
    }

    /** The end of ramfs_move: detach, rename, attach. */
    method Relocate(node: Node, newParent: Node, newName: seq<Char>)
      requires Linked() && Has(node) && Has(newParent) && CanMove(t, root.addr, node.addr, newParent.addr)
      modifies this`t, nodes
      ensures Linked()
      ensures t == TreeOps.Move(old(t), node.addr, newParent.addr, Truncated(newName))
    {
      ghost var n, np, name := node.addr, newParent.addr, Truncated(newName);
      ghost var t0 := t;
      MoveSteps(t, root.addr, n, np, name);
      DetachRenamed(node, newName);
      Attach(newParent, node);
      Relabel(TreeOps.Move(t0, n, np, name));
    }

    /** ramfs_move past its checks. */
    method MoveTo(node: Node, newParent: Node, newName: seq<Char>)
      requires Valid() && Has(node) && Has(newParent) && CanMove(t, root.addr, node.addr, newParent.addr)
      modifies this`t, nodes
      ensures Valid() && t == TreeOps.Move(old(t), node.addr, newParent.addr, Truncated(newName))
      ensures Owned(t) == old(Owned(t))
    {
      MoveGood(t, root.addr, node.addr, newParent.addr, Truncated(newName));
      MoveHeld(t, node.addr, newParent.addr, Truncated(newName), HM.Live(heap.blocks), heap.mem[..], heap.start);
      Relocate(node, newParent, newName);
    }

    /** ramfs_move. */
    method Move(node: Node?, newParent: Node?, newName: seq<Char>) returns (ok: bool)
      requires Valid() && (node != null ==> Has(node)) && (newParent != null ==> Has(newParent))
      modifies this`t, nodes
      ensures Valid()
      ensures ok <==> old(
        && node != null && newParent != null && node != root && t[newParent.addr].kind.Dir?
        && TreeModel.FindChild(t, t[newParent.addr].kids, newName) == 0
        && !Under(t, newParent.addr, node.addr))
      ensures !ok ==> t == old(t)
      ensures ok ==> CanMove(old(t), root.addr, node.addr, newParent.addr)
                     && t == TreeOps.Move(old(t), node.addr, newParent.addr, Truncated(newName))
      ensures Owned(t) == old(Owned(t))
    {
      assert newParent != null ==> NodeOK(newParent.addr);
      if node == null || node == root || newParent == null || newParent.kind != Dir {
        return false;
      }
      var clash := FindChild(newParent, newName);
      if clash != null {
        return false;
      }
      var inside := Climbs(newParent, node);
      if inside {
        return false;
      }
      assert node.addr != root.addr;
      MoveTo(node, newParent, newName);
      return true;
    }

    // ---- delete ------------------------------------------------------------------

    /** Below `n` the nodes are linked as `t0` says, whatever happened above. */
    ghost predicate Agrees(t0: Tree, n: Addr)
      reads this
    {
      forall x {:trigger x in Sub(t0, n)} :: x in Sub(t0, n) ==>
        x in t && t[x].kids == t0[x].kids && t[x].data == t0[x].data
    }

    /** Of the blocks out in an earlier state of the heap exactly those at `s` have been freed. */
    ghost predicate Freed(ptrs0: set<int>, live0: set<HM.Block>, m0: seq<Word>, s: set<Addr>)
      reads heap, heap.mem
    {
      && heap.Valid() && heap.Ptrs() == ptrs0 - s
      && FreedOnly(live0, m0, HM.Live(heap.blocks), heap.mem[..], heap.start, s)
    }

    /** free_tree: give back the blocks of a node and of everything below it. */
    method FreeTree(node: Node, ghost t0: Tree, ghost r: Addr)
      requires Linked() && heap.Valid() && Has(node) && node.addr in t0
      requires Shape(t0, r) && Apart(t0) && Agrees(t0, node.addr)
      requires OwnedBy(t0, Sub(t0, node.addr)) <= heap.Ptrs()
      modifies heap`blocks, heap.mem
      ensures Freed(old(heap.Ptrs()), old(HM.Live(heap.blocks)), old(heap.mem[..]), OwnedBy(t0, Sub(t0, node.addr)))
      decreases Sub(t0, node.addr), 0
    {
      ghost var n := node.addr;
      ghost var kids := t0[n].kids;
      ghost var ptrs0, live0, m0 := heap.Ptrs(), HM.Live(heap.blocks), heap.mem[..];
      FirstKid(node, t0, r);
      var c := node.children;
      ghost var i := 0;
      while c != null
        invariant i <= |kids| && c == KidObj(kids, i)
        invariant Linked() && Freed(ptrs0, live0, m0, OwnedBy(t0, SubAll(t0, kids[..i])))
        decreases |kids| - i
      {
        NextKid(node, t0, r, i);
        KidBelow(t0, r, n, i);
        var next := c.next;
        FreeKid(c, t0, r, ptrs0, live0, m0, OwnedBy(t0, SubAll(t0, kids[..i])));
        c := next;
        i := i + 1;
      }
      NoMoreKids(node, t0, r, i);
      FreeTop(node, t0, r, ptrs0, live0, m0);
    }

    lemma FirstKid(node: Node, t0: Tree, r: Addr)
      requires Linked() && heap.Valid() && Has(node) && node.addr in t0
      requires Shape(t0, r) && Agrees(t0, node.addr)
      ensures node.children == KidObj(t0[node.addr].kids, 0) && node.data == t0[node.addr].data
      ensures Freed(heap.Ptrs(), HM.Live(heap.blocks), heap.mem[..], OwnedBy(t0, SubAll(t0, t0[node.addr].kids[..0])))
    {
      assert Under(t0, node.addr, node.addr) && node.addr in Sub(t0, node.addr) && NodeOK(node.addr);
      assert SubAll(t0, t0[node.addr].kids[..0]) == {};
      assert OwnedBy(t0, {}) == {};
    }

    /** The i-th child, and the way to the next one. */
    lemma NextKid(node: Node, t0: Tree, r: Addr, i: nat)
      requires Linked() && Has(node) && node.addr in t0 && Shape(t0, r) && Apart(t0) && Agrees(t0, node.addr)
      requires i <= |t0[node.addr].kids| && KidObj(t0[node.addr].kids, i) != null
      ensures var kids := t0[node.addr].kids;
        && i < |kids| && kids[i] in t0 && kids[i] in at
        && at[kids[i]].addr == kids[i] && at[kids[i]].next == KidObj(kids, i + 1)
    {
      KidBelow(t0, r, node.addr, i);
      assert Under(t0, node.addr, node.addr) && node.addr in Sub(t0, node.addr);
      assert NodeOK(t0[node.addr].kids[i]) && ChainOK(node.addr) && NextOK(node.addr, i);
    }

    lemma NoMoreKids(node: Node, t0: Tree, r: Addr, i: nat)
      requires Linked() && Has(node) && node.addr in t0 && Shape(t0, r) && Apart(t0) && Agrees(t0, node.addr)
      requires i <= |t0[node.addr].kids| && KidObj(t0[node.addr].kids, i) == null
      ensures i == |t0[node.addr].kids| && t0[node.addr].kids[..i] == t0[node.addr].kids
    {
      if i < |t0[node.addr].kids| {
        KidBelow(t0, r, node.addr, i);
      }
    }

    /** free_tree on one child, when the blocks in `gone` have been freed before. */
    method FreeKid(c: Node, ghost t0: Tree, ghost r: Addr,
                   ghost ptrs0: set<int>, ghost live0: set<HM.Block>, ghost m0: seq<Word>, ghost gone: set<Addr>)
      requires Linked() && Has(c) && c.addr in t0
      requires Shape(t0, r) && Apart(t0) && Agrees(t0, c.addr)
      requires OwnedBy(t0, Sub(t0, c.addr)) <= ptrs0 - gone && Freed(ptrs0, live0, m0, gone)
      modifies heap`blocks, heap.mem
      ensures Linked() && Freed(ptrs0, live0, m0, gone + OwnedBy(t0, Sub(t0, c.addr)))
      decreases Sub(t0, c.addr), 1
    {
      ghost var live1, m1 := HM.Live(heap.blocks), heap.mem[..];
      FreeTree(c, t0, r);
      FreedMore(live0, m0, live1, m1, HM.Live(heap.blocks), heap.mem[..],
                heap.start, gone, OwnedBy(t0, Sub(t0, c.addr)));
    }

    /** The end of free_tree, once everything below the node has been freed. */
    method FreeTop(node: Node, ghost t0: Tree, ghost r: Addr,
                   ghost ptrs0: set<int>, ghost live0: set<HM.Block>, ghost m0: seq<Word>)
      requires Shape(t0, r) && Apart(t0) && node.addr in t0 && node.data == t0[node.addr].data
      requires OwnedBy(t0, Sub(t0, node.addr)) <= ptrs0
      requires Freed(ptrs0, live0, m0, OwnedBy(t0, SubAll(t0, t0[node.addr].kids)))
      modifies heap`blocks, heap.mem
      ensures Freed(ptrs0, live0, m0, OwnedBy(t0, Sub(t0, node.addr)))
    {
      ghost var below := OwnedBy(t0, SubAll(t0, t0[node.addr].kids));
      OwnedTop(t0, r, node.addr);
      ghost var live1, m1 := HM.Live(heap.blocks), heap.mem[..];
      heap.ZeroNoPtr();
      ReleaseNode(heap, node.data, node.addr);
      heap.ZeroNoPtr();
      FreedMore(live0, m0, live1, m1, HM.Live(heap.blocks), heap.mem[..], heap.start, below, {node.data, node.addr});
      FreedSame(live0, m0, HM.Live(heap.blocks), heap.mem[..], heap.start,
                below + {node.data, node.addr}, OwnedBy(t0, Sub(t0, node.addr)));
    }

    lemma KidBelow(t0: Tree, r: Addr, n: Addr, i: nat)
      requires Shape(t0, r) && Apart(t0) && n in t0 && i < |t0[n].kids| && Agrees(t0, n)
      ensures var k := t0[n].kids[i];
        && k in t0 && k in t && Sub(t0, k) < Sub(t0, n) && Agrees(t0, k)
        && OwnedBy(t0, SubAll(t0, t0[n].kids[..i + 1])) ==
           OwnedBy(t0, SubAll(t0, t0[n].kids[..i])) + OwnedBy(t0, Sub(t0, k))
        && OwnedBy(t0, SubAll(t0, t0[n].kids[..i])) !! OwnedBy(t0, Sub(t0, k))
        && OwnedBy(t0, Sub(t0, k)) <= OwnedBy(t0, Sub(t0, n))
    {
      var k := t0[n].kids[i];
      assert k in t0[n].kids;
      KidFacts(t0, r, n, k);
      SubAllMore(t0, r, n, i);
      OwnedUnion(t0, SubAll(t0, t0[n].kids[..i]), Sub(t0, k));
      OwnedDisjoint(t0, SubAll(t0, t0[n].kids[..i]), Sub(t0, k));
      assert k in Sub(t0, k) && k in Sub(t0, n);
      assert forall x :: x in Sub(t0, k) ==> x in Sub(t0, n);
    }

    /** Some nodes left the tree; the others and their records are as they were. */
    twostate lemma Pruned()
      requires old(Linked()) && nodes == old(nodes) && root == old(root) && root.addr in t
      requires at.Keys == t.Keys && Remains(old(t), t)
      requires forall x {:trigger t[x]} :: x in t ==> at[x] == old(at)[x]
      requires forall n :: n in nodes ==> SameFile(n)
      requires forall n :: n in nodes ==>
        n.parent == old(n.parent) && n.children == old(n.children) && n.next == old(n.next)
      ensures Linked()
    {
      forall x | x in t ensures NodeOK(x) && ChainOK(x) {
        assert old(NodeOK(x)) && old(ChainOK(x)) && DownOK(t, x) && t[x] == old(t)[x];
        assert 0 < |t[x].kids| ==> t[x].kids[0] in t[x].kids;
        forall i | 0 <= i < |t[x].kids| ensures NextOK(x, i) {
          assert old(NextOK(x, i)) && t[x].kids[i] in t[x].kids;
          assert i + 1 < |t[x].kids| ==> t[x].kids[i + 1] in t[x].kids;
        }
      }
    }

    /** The end of ramfs_delete: detach the subtree, then give all of its blocks back. */
    method Remove(node: Node)
      requires Valid() && Has(node) && node != root
      modifies this`t, this`at, nodes, heap`blocks, heap.mem
      ensures Valid()
      ensures t == TreeOps.Delete(old(t), node.addr)
      ensures forall x {:trigger at[x]} :: x in at ==> x in old(at) && at[x] == old(at)[x]
      ensures heap.Ptrs() == old(heap.Ptrs()) - OwnedBy(old(t), Sub(old(t), node.addr))
      ensures Owned(t) == old(Owned(t)) - OwnedBy(old(t), Sub(old(t), node.addr))
    {
      ghost var n, r, t0 := node.addr, root.addr, t;
      assert NodeOK(n) && NodeOK(r);
      DetachedDown(t, r, n);
      DeleteGood(t, r, n);
      Drop(node);
      DeletedHeld(t0, n, old(HM.Live(heap.blocks)), old(heap.mem[..]), HM.Live(heap.blocks), heap.mem[..], heap.start);
      Prune(t0, n);
    }

    /** detach, then free_tree. */
    method Drop(node: Node)
      requires Linked() && heap.Valid() && Has(node) && CanDetach(t, root.addr, node.addr) && Apart(t)
      requires Owned(t) <= heap.Ptrs()
      modifies this`t, nodes, heap`blocks, heap.mem
      ensures Linked() && heap.Valid()
      ensures old(t)[node.addr].parent in old(t) && t == Detached(old(t), node.addr)
      ensures heap.Ptrs() == old(heap.Ptrs()) - OwnedBy(old(t), Sub(old(t), node.addr))
      ensures FreedOnly(old(HM.Live(heap.blocks)), old(heap.mem[..]), HM.Live(heap.blocks), heap.mem[..],
                        heap.start, OwnedBy(old(t), Sub(old(t), node.addr)))
    {
      ghost var r, t0 := root.addr, t;
      DetachedDown(t, r, node.addr);
      ParentOutside(t, r, node.addr);
      OwnedSome(t, Sub(t, node.addr));
      Detach(node);
      DetachedAgrees(t0, r, node.addr);
      FreeTree(node, t0, r);
    }

    /** The records forget a subtree that has been detached. */
    ghost method Prune(t0: Tree, n: Addr)
      requires Linked() && CanDetach(t0, root.addr, n) && t0[n].parent in t0 && t == Detached(t0, n)
      modifies this`t, this`at
      ensures Linked() && t == TreeOps.Delete(t0, n)
      ensures forall x {:trigger at[x]} :: x in at ==> x in old(at) && at[x] == old(at)[x]
    {
      DeleteRemains(t0, root.addr, n);
      Forget(TreeOps.Delete(t0, n));
    }

    ghost method Forget(t1: Tree)
      requires Linked() && Remains(t, t1) && root.addr in t1
      modifies this`t, this`at
      ensures Linked() && t == t1
      ensures forall x {:trigger at[x]} :: x in at ==> x in old(at) && at[x] == old(at)[x]
    {
      t := t1;
      at := map a | a in at && a in t :: at[a];
      Pruned();
    }

    /** ramfs_delete. */
    method Delete(node: Node?, recursive: bool) returns (ok: bool)
      requires Valid() && (node != null ==> Has(node))
      modifies this`t, this`at, nodes, heap`blocks, heap.mem
      ensures Valid()
      ensures ok <==> old(node != null && node != root && (t[node.addr].kids != [] ==> recursive))
      ensures !ok ==> t == old(t) && at == old(at) && heap.blocks == old(heap.blocks)
      ensures ok ==> t == TreeOps.Delete(old(t), node.addr)
                     && heap.Ptrs() == old(heap.Ptrs()) - OwnedBy(old(t), Sub(old(t), node.addr))
                     && Owned(t) == old(Owned(t)) - OwnedBy(old(t), Sub(old(t), node.addr))
    {
      if node != null && node != root {
        assert NodeOK(node.addr) && NodeOK(root.addr) && UpOK(t, node.addr) && DownOK(t, node.addr);
        assert t[node.addr].kids != [] ==> t[node.addr].kids[0] in t[node.addr].kids;
      }
      if node == null || node == root || node.parent == null {
        return false;
      }
      if node.kind == Dir && node.children != null && !recursive {
        return false;
      }
      Remove(node);
      return true;
    }

    lemma DetachedAgrees(t0: Tree, r: Addr, n: Addr)
      requires CanDetach(t0, r, n) && t0[n].parent in t0 && t == Detached(t0, n)
      ensures Agrees(t0, n)
    {
      ParentOutside(t0, r, n);
    }

    // ---- write -------------------------------------------------------------------

    ghost predicate Growable(a: Addr, data: seq<Byte>, append: bool)
      requires a in t
      reads this
    {
      (if append then |t[a].bytes| else 0) + |data| <= 0x8000_0000
    }

    /** The call of ramfs_write on file `a` as the file model sees it: `granted` says whether
        the heap has room for the larger buffer that is needed. */
    ghost function WriteOp(a: Addr, data: seq<Byte>, append: bool): F.Write
      requires a in t && Growable(a, data, append)
      reads this, heap
    {
      var needed := (if append then |t[a].bytes| else 0) + |data|;
      F.Write(data, append, t[a].cap < needed && !Refuses(heap.blocks, F.NewCap(t[a].cap, needed)))
    }

    /** The bytes fit the file's buffer, or the heap has room for the larger one. */
    ghost predicate Writable(r: Rec, data: seq<Byte>, append: bool)
      requires (if append then |r.bytes| else 0) + |data| <= 0x8000_0000
      reads heap
    {
      var needed := (if append then |r.bytes| else 0) + |data|;
      needed <= r.cap || !Refuses(heap.blocks, F.NewCap(r.cap, needed))
    }

    lemma WriteOpMeaning(a: Addr, data: seq<Byte>, append: bool)
      requires a in t && Growable(a, data, append)
      ensures F.Succeeds(AsFile(t[a]), WriteOp(a, data, append)) <==> Writable(t[a], data, append)
    {
    }

    /** Only the file fields of `file` changed, and they follow its new record. */
    twostate lemma Refilled(file: Node)
      requires old(Linked()) && old(Has(file)) && at == old(at) && nodes == old(nodes) && root == old(root)
      requires file.addr in old(t) && file.addr in t && t == old(t)[file.addr := t[file.addr]]
      requires t[file.addr].(data := 0, bytes := [], cap := 0) == old(t)[file.addr].(data := 0, bytes := [], cap := 0)
      requires file.data == t[file.addr].data && file.size == |t[file.addr].bytes| && file.capacity == t[file.addr].cap
      requires forall n :: n in nodes && n != file ==> SameFile(n)
      requires file.name == old(file.name) && file.kind == old(file.kind)
      requires forall n :: n in nodes ==>
        n.parent == old(n.parent) && n.children == old(n.children) && n.next == old(n.next)
      ensures Linked()
    {
      forall x | x in t ensures NodeOK(x) && ChainOK(x) {
        assert old(NodeOK(x)) && old(ChainOK(x));
        forall i | 0 <= i < |t[x].kids| ensures NextOK(x, i) {
          assert old(NextOK(x, i));
        }
      }
    }

    /** What ramfs_write reads off a file, and when the write will succeed. */
    lemma WriteArgs(file: Node, data: seq<Byte>, append: bool, base: nat, w: F.Write)
      requires Valid() && Has(file) && t[file.addr].kind.File? && Growable(file.addr, data, append)
      requires w == WriteOp(file.addr, data, append) && base == if append then file.size else 0
      ensures var r := t[file.addr];
        && file.data == r.data && file.capacity == r.cap && base <= |r.bytes| && base <= r.cap
        && base == F.Base(AsFile(r), w) && w.data == data && base + |data| <= 0x8000_0000
        && F.CapOK(r.cap) && (r.data == 0 <==> r.cap == 0)
        && Begins(HM.Live(heap.blocks), heap.mem[..], heap.start, r.data, r.cap, r.bytes[..base])
        && (w.granted ==> Regrows(r, w)) && (Regrows(r, w) <==> r.cap < base + |data|)
        && (F.Succeeds(AsFile(r), w) <==>
              base + |data| <= r.cap || !Refuses(heap.blocks, F.NewCap(r.cap, base + |data|)))
        && F.Apply(AsFile(r), w).copied == if F.Succeeds(AsFile(r), w) && r.cap < base + |data| then base else 0
    {
      var r := t[file.addr];
      assert NodeOK(file.addr) && FileOK(r) && Stored(HM.Live(heap.blocks), heap.mem[..], heap.start, r);
      WriteReady(HM.Live(heap.blocks), heap.mem[..], heap.start, r, r.bytes[..base]);
    }

    /** The heap's part of ramfs_write on a file. */
    method FillBuffer(file: Node, data: seq<Byte>, append: bool, ghost w: F.Write)
        returns (buf: Word, cap: nat, done: bool, ghost copied: nat)
      requires Valid() && Has(file) && t[file.addr].kind.File? && Growable(file.addr, data, append)
      requires w == WriteOp(file.addr, data, append)
      modifies heap`blocks, heap.mem
      ensures heap.Valid()
      ensures done <==> F.Succeeds(AsFile(t[file.addr]), w)
      ensures !done ==> heap.blocks == old(heap.blocks)
      ensures !done ==> AllHeld(t, HM.Live(heap.blocks), heap.mem[..], heap.start)
      ensures done ==> Written(t, root.addr, file.addr, w, buf, cap, old(heap.Ptrs()),
                               HM.Live(heap.blocks), heap.mem[..], heap.Ptrs(), heap.start)
      ensures copied == F.Apply(AsFile(t[file.addr]), w).copied
    {
      ghost var live0, m0 := HM.Live(heap.blocks), heap.mem[..];
      var base := if append then file.size else 0;
      WriteArgs(file, data, append, base, w);
      buf, cap, done, copied := WriteBuffer(heap, file.data, file.capacity, t[file.addr].bytes[..base], base, data);
      if done {
        WriteDone(t, root.addr, file.addr, w, buf, cap, live0, m0, old(heap.Ptrs()),
                  HM.Live(heap.blocks), heap.mem[..], heap.Ptrs(), heap.start);
      } else {
        AllHeldKept(t, live0, live0, m0, heap.mem[..], heap.start);
      }
    }

    /** ramfs_write on a file. */
    method Fill(file: Node, data: seq<Byte>, append: bool) returns (ok: bool, ghost copied: nat)
      requires Valid() && Has(file) && t[file.addr].kind.File? && Growable(file.addr, data, append)
      modifies this`t, file`data, file`size, file`capacity, heap`blocks, heap.mem
      ensures Valid()
      ensures ok <==> old(F.Succeeds(AsFile(t[file.addr]), WriteOp(file.addr, data, append)))
      ensures !ok ==> t == old(t) && heap.blocks == old(heap.blocks)
      ensures ok ==> t == WriteTo(old(t), file.addr, old(WriteOp(file.addr, data, append)), file.data)
      ensures ok ==> heap.Ptrs() == if Regrows(old(t)[file.addr], old(WriteOp(file.addr, data, append)))
                                    then old(heap.Ptrs()) + {file.data} - {old(file.data)} else old(heap.Ptrs())
      ensures ok && Regrows(old(t)[file.addr], old(WriteOp(file.addr, data, append))) ==>
        file.data != 0 && file.data !in old(heap.Ptrs())
      ensures old(Named(t, root.addr)) ==> Named(t, root.addr)
      ensures copied == old(F.Apply(AsFile(t[file.addr]), WriteOp(file.addr, data, append)).copied)
    {
      ghost var w := WriteOp(file.addr, data, append);
      assert NodeOK(file.addr) && FileOK(t[file.addr]);
      var base := if append then file.size else 0;
      var buf, cap, done;
      buf, cap, done, copied := FillBuffer(file, data, append, w);
      assert Linked();
      ok := done;
      if done {
        SetFile(file, buf, cap, base + |data|, w);
      }
    }

    /** The field updates of ramfs_write. */
    method SetFile(file: Node, buf: Word, cap: nat, size: nat, ghost w: F.Write)
      requires Linked() && Has(file) && file.addr in t && F.Succeeds(AsFile(t[file.addr]), w)
      requires var r := WriteTo(t, file.addr, w, buf)[file.addr]; r.data == buf && r.cap == cap && |r.bytes| == size
      modifies this`t, file`data, file`size, file`capacity
      ensures Linked() && t == WriteTo(old(t), file.addr, w, buf) && file.data == buf
    {
      assert NodeOK(file.addr);
      file.data := buf;
      file.capacity := cap;
      file.size := size;
      t := WriteTo(t, file.addr, w, buf);
      Refilled(file);
    }

    /** ramfs_write. The size asked for must not pass 2 GiB, or the doubling would not end. */
    method Write(file: Node?, data: seq<Byte>, append: bool) returns (ok: bool, ghost copied: nat)
      requires Valid() && (file != null ==> Has(file) && Growable(file.addr, data, append))
      modifies this`t, nodes, heap`blocks, heap.mem
      ensures Valid()
      ensures ok <==> old(file != null && t[file.addr].kind.File? && Writable(t[file.addr], data, append))
      ensures !ok ==> t == old(t) && heap.blocks == old(heap.blocks)
      ensures ok ==> file.addr in t && t[file.addr].bytes == (if append then old(t)[file.addr].bytes else []) + data
      ensures ok ==> t == WriteTo(old(t), file.addr, old(WriteOp(file.addr, data, append)), file.data)
      ensures ok ==> heap.Ptrs() == if Regrows(old(t)[file.addr], old(WriteOp(file.addr, data, append)))
                                    then old(heap.Ptrs()) + {file.data} - {old(file.data)} else old(heap.Ptrs())
      ensures ok && Regrows(old(t)[file.addr], old(WriteOp(file.addr, data, append))) ==>
        file.data != 0 && file.data !in old(heap.Ptrs())
      ensures old(Named(t, root.addr)) ==> Named(t, root.addr)
      ensures copied == if old(file != null && t[file.addr].kind.File?)
                        then old(F.Apply(AsFile(t[file.addr]), WriteOp(file.addr, data, append)).copied) else 0
    {
      if file != null {
        assert NodeOK(file.addr);
      }
      if file == null || file.kind != File {
        return false, 0;
      }
      ghost var t0, w := t, WriteOp(file.addr, data, append);
      WriteOpMeaning(file.addr, data, append);
      ok, copied := Fill(file, data, append);
      if ok {
        WrittenBytes(t0, file.addr, w, file.data);
      }
    }

    // ---- path --------------------------------------------------------------------

    /** `chain` holds the first `depth` nodes met on the way up from `node`. */
    ghost predicate Climbed(chain: seq<Node?>, depth: nat, node: Node)
      reads this
    {
      && depth <= |chain|
      && (forall j {:trigger chain[j]} :: 0 <= j < depth ==> chain[j] != null && Has(chain[j]) && chain[j].addr in t)
      && (0 < depth ==> chain[0] == node)
      && (forall j, k {:trigger chain[j], chain[k]} :: 0 <= j < k < depth && k == j + 1 ==>
            t[chain[j].addr].parent == chain[k].addr)
    }

    /** Going up from a node: the root alone has no parent. */
    lemma Above(n: Node)
      requires Linked() && Shape(t, root.addr) && Has(n)
      ensures n.addr in t && n.name == t[n.addr].name
      ensures (n.parent == null <==> n == root) && (t[n.addr].parent == 0 <==> n == root)
      ensures n.parent != null ==>
        && Has(n.parent) && n.parent.addr in t
        && n.parent.addr == t[n.addr].parent && t[n.addr].depth == t[n.parent.addr].depth + 1
    {
      assert NodeOK(n.addr);
      if n != root {
        assert UpOK(t, n.addr) && NodeOK(t[n.addr].parent);
      }
    }

    /** ramfs_path. */
    method Path(node: Node, buf: array<Byte>)
      requires Linked() && Shape(t, root.addr) && Has(node) && 0 < buf.Length
      modifies buf
      ensures C.Holds(buf[..], Printed(t, node.addr, buf.Length))
    {
      Above(node);
      if node.parent == null {
        var _ := C.Strlcpy(buf, 0, [SLASH], buf.Length);
        assert buf[0..] == buf[..];
        return;
      }
      var chain, depth := Climb(node);
      PrintChain(chain, depth, node, buf);
    }

    /** The names collected from the top of the chain down to place `i`. */
    ghost predicate Collected(chain: seq<Node?>, depth: nat, node: Node, i: nat, names: seq<seq<Char>>)
      reads this
    {
      && Climbed(chain, depth, node) && i <= depth
      && names == if i == depth then [] else ChainNames(t, chain[i].addr, depth - i)
    }

    lemma CollectOne(chain: seq<Node?>, depth: nat, node: Node, i: nat, names: seq<seq<Char>>)
      requires Linked() && Shape(t, root.addr) && i < depth && Collected(chain, depth, node, i + 1, names)
      ensures chain[i] != null && Collected(chain, depth, node, i, names + [chain[i].name])
    {
      Above(chain[i]);
    }

    /** The second loop of ramfs_path. */
    method PrintChain(chain: seq<Node?>, depth: nat, node: Node, buf: array<Byte>)
      requires Linked() && Shape(t, root.addr) && Climbed(chain, depth, node) && 0 < depth
      requires 0 < buf.Length && Has(node)
      modifies buf
      ensures C.Holds(buf[..], Cut(Print(ChainNames(t, node.addr, depth)), buf.Length - 1))
    {
      buf[0] := 0;
      ghost var done: seq<seq<Char>> := [];
      for i := depth downto 0
        invariant Collected(chain, depth, node, i, done)
        invariant C.Holds(buf[..], Cut(Print(done), buf.Length - 1))
      {
        CollectOne(chain, depth, node, i, done);
        AppendName(buf, chain[i].name, done);
        done := done + [chain[i].name];
      }
    }

    /** Collect the node and its ancestors below the root, at most 32 of them. */
    method Climb(node: Node) returns (chain: seq<Node?>, depth: nat)
      requires Linked() && Shape(t, root.addr) && Has(node) && node != root
      ensures Climbed(chain, depth, node) && 0 < depth
      ensures ChainNames(t, node.addr, depth) == LastOf(Names(t, node.addr), CHAIN_MAX)
    {
      var n: Node := node;
      chain, depth := [], 0;
      Above(node);
      while n.parent != null && depth < CHAIN_MAX
        invariant |chain| == depth <= CHAIN_MAX && Climbed(chain, depth, node)
        invariant Has(n) && n.addr in t && t[n.addr].depth + depth == t[node.addr].depth
        invariant if depth == 0 then n == node else t[chain[depth - 1].addr].parent == n.addr
        decreases CHAIN_MAX - depth
      {
        Above(n);
        chain := chain + [n];
        depth := depth + 1;
        n := n.parent;
      }
      Above(n);
      ChainLastOf(t, root.addr, node.addr, depth);
    }
  }

  /** Whatever string a reader finds in the buffer that ramfs_path filled, resolving it gives the
      node back exactly when the node is not too deep and its whole path fits. */
  lemma BufferResolvesIff(t: Tree, root: Addr, cwd: Addr, n: Addr, buf: seq<Byte>, s: seq<Char>)
    requires Shape(t, root) && Named(t, root) && n in t && 2 <= |buf|
    requires C.Holds(buf, Printed(t, n, |buf|)) && C.Holds(buf, s)
    ensures TreeModel.Resolve(t, root, cwd, s) == n <==> t[n].depth <= CHAIN_MAX && |FullPath(t, n)| < |buf|
  {
    C.HoldsUnique(buf, s, Printed(t, n, |buf|));
    PrintedResolvesIff(t, root, cwd, n, |buf|);
  }

  lemma CutName(done: seq<seq<Char>>, name: seq<Char>, k: nat)
    ensures Cut(Cut(Cut(Print(done), k) + [SLASH], k) + name, k) == Cut(Print(done + [name]), k)
  {
    CutAppend(Print(done), [SLASH], k);
    CutAppend(Print(done) + [SLASH], name, k);
    PrintLast(done, name);
  }

  /** One turn of the printing loop of ramfs_path: a slash and a name, as far as they fit. */
  method AppendName(buf: array<Byte>, name: seq<Char>, ghost done: seq<seq<Char>>)
    requires 0 < buf.Length && C.Holds(buf[..], Cut(Print(done), buf.Length - 1))
    modifies buf
    ensures C.Holds(buf[..], Cut(Print(done + [name]), buf.Length - 1))
  {
    ghost var s := Cut(Print(done), buf.Length - 1);
    C.AppendTo(buf, [SLASH], s);
    C.AppendTo(buf, name, Cut(s + [SLASH], buf.Length - 1));
    CutName(done, name, buf.Length - 1);
  }

  /** One component off the front of Follow. */
  lemma FollowUnfold(t: Tree, root: Addr, cur: Addr, c: seq<Char>, cs: seq<seq<Char>>, wantParent: bool)
    requires Shape(t, root) && cur in t
    ensures Step(t, cur, c) != 0 ==> Step(t, cur, c) in t
    ensures Follow(t, cur, [c] + cs, wantParent) ==
      if NAME_MAX <= |c| then Last(0, 0, [])
      else if cs == [] && Plain(c) && wantParent then
        (if t[cur].kind.Dir? then Last(Step(t, cur, c), cur, c) else Last(0, 0, []))
      else if Step(t, cur, c) == 0 then Last(0, 0, [])
      else Follow(t, Step(t, cur, c), cs, wantParent)
  {
    StepInTree(t, root, cur, c);
    assert ([c] + cs)[1..] == cs;
  }

  method SkipSlashes(path: seq<Char>, p: nat) returns (q: nat)
    requires p <= |path|
    ensures p <= q <= |path| && (q < |path| ==> path[q] != SLASH)
    ensures Components(path[q..]) == Components(path[p..])
    ensures q < |path| <==> Components(path[q..]) != []
    ensures p < |path| && path[p] == SLASH ==> p < q
  {
    q := p;
    while q < |path| && path[q] == SLASH
      invariant p <= q <= |path|
      invariant Components(path[q..]) == Components(path[p..])
    {
      assert path[q..][1..] == path[q + 1..];
      q := q + 1;
    }
  }

  /** Where the component at `p` ends. */
  method ComponentEnd(path: seq<Char>, p: nat) returns (e: nat)
    requires p < |path| && path[p] != SLASH
    ensures p < e <= |path| && SLASH !in path[p..e] && (e < |path| ==> path[e] == SLASH)
  {
    e := p;
    while e < |path| && path[e] != SLASH
      invariant p <= e <= |path| && SLASH !in path[p..e]
    {
      e := e + 1;
    }
  }

  lemma ComponentCut(path: seq<Char>, p: nat, e: nat)
    requires p < e <= |path| && SLASH !in path[p..e] && (e < |path| ==> path[e] == SLASH)
    ensures Components(path[p..]) == [path[p..e]] + Components(path[e..])
  {
    ComponentsHead(path[p..e], path[e..]);
    assert path[p..] == path[p..e] + path[e..];
  }

  /** The component at `p`, and where the next one starts or the path ends. */
  method NextComponent(path: seq<Char>, p: nat) returns (component: seq<Char>, rest: nat)
    requires p < |path| && path[p] != SLASH
    ensures p < rest <= |path| && component != []
    ensures Components(path[p..]) == [component] + Components(path[rest..])
    ensures rest == |path| <==> Components(path[rest..]) == []
  {
    var e := ComponentEnd(path, p);
    component := path[p..e];
    ComponentCut(path, p, e);
    rest := SkipSlashes(path, e);
  }
}
