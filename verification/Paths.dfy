/** Path strings: components, printing, and splitting off the last name. */
module Paths {
  import opened Machine

  const SLASH: Char := 47
  const DOT: seq<Char> := [46]
  const DOTDOT: seq<Char> := [46, 46]
  const NAME_MAX: nat := 32

  /** Length of the first component: bytes before the next '/', or before the end. */
  function CompLen(p: seq<Char>): (n: nat)
    ensures n <= |p|
    ensures SLASH !in p[..n]
    ensures n < |p| ==> p[n] == SLASH
  {
    if p == [] || p[0] == SLASH then 0 else
      var n := 1 + CompLen(p[1..]);
      assert p[..n] == [p[0]] + p[1..][..n - 1];
      n
  }

  /** The non-empty pieces between slashes. */
  function Components(p: seq<Char>): (cs: seq<seq<Char>>)
    ensures forall c :: c in cs ==> c != [] && SLASH !in c
    decreases |p|
  {
    if p == [] then []
    else if p[0] == SLASH then Components(p[1..])
    else
      var n := CompLen(p);
      [p[..n]] + Components(p[n..])
  }

  predicate Plain(c: seq<Char>) {
    c != DOT && c != DOTDOT
  }

  /** What a stored file name may look like. */
  predicate NameOK(c: seq<Char>) {
    0 < |c| < NAME_MAX && SLASH !in c && Plain(c)
  }

  /** strlcpy into a 32-byte field. */
  function Truncated(c: seq<Char>): seq<Char> {
    if |c| < NAME_MAX then c else c[..NAME_MAX - 1]
  }

  function Cut(s: seq<Char>, n: nat): seq<Char> {
    if |s| <= n then s else s[..n]
  }

  lemma CompLenPrefix(p: seq<Char>, q: seq<Char>)
    requires SLASH !in p && (q == [] || q[0] == SLASH)
    ensures CompLen(p + q) == |p|
  {
    assert forall k :: 0 <= k < |p| ==> (p + q)[k] == p[k];
    assert q != [] ==> (p + q)[|p|] == SLASH;
  }

  /** One component followed by a slash or the end. */
  lemma ComponentsHead(c: seq<Char>, q: seq<Char>)
    requires c != [] && SLASH !in c && (q == [] || q[0] == SLASH)
    ensures Components(c + q) == [c] + Components(q)
  {
    CompLenPrefix(c, q);
    assert (c + q)[..|c|] == c && (c + q)[|c|..] == q;
  }

  /** Joining two paths with a slash appends their components. */
  lemma {:induction false} ComponentsJoin(p: seq<Char>, q: seq<Char>)
    ensures Components(p + [SLASH] + q) == Components(p) + Components(q)
    decreases |p|
  {
    var s := p + [SLASH] + q;
    if p == [] {
      assert s[1..] == q;
    } else if p[0] == SLASH {
      assert s[1..] == p[1..] + [SLASH] + q;
      ComponentsJoin(p[1..], q);
    } else {
      var n := CompLen(p);
      var rest := p[n..] + [SLASH] + q;
      assert s == p[..n] + rest && p == p[..n] + p[n..];
      ComponentsHead(p[..n], rest);
      ComponentsHead(p[..n], p[n..]);
      ComponentsJoin(p[n..], q);
    }
  }

  /** "/a/b/c" from its names. */
  function Print(names: seq<seq<Char>>): seq<Char> {
    if names == [] then [] else Print(names[..|names| - 1]) + [SLASH] + names[|names| - 1]
  }

  /** Printing and splitting into components are inverse on names without slashes. */
  lemma {:induction false} ComponentsPrint(names: seq<seq<Char>>)
    requires forall c :: c in names ==> c != [] && SLASH !in c
    ensures Components(Print(names)) == names
  {
    if names != [] {
      var init, last := names[..|names| - 1], names[|names| - 1];
      assert names == init + [last];
      assert last in names && forall c :: c in init ==> c in names;
      ComponentsPrint(init);
      ComponentsJoin(Print(init), last);
      ComponentsHead(last, []);
      assert last + [] == last;
    }
  }
}
