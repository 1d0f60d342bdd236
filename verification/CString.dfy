/** lib/string.c: the loops the rest of the kernel stands on, over byte arrays. */
module CString {
  import opened Machine
  import opened Paths

  /** `b` starts with the string `s` and its terminating NUL. */
  ghost predicate Holds(b: seq<Byte>, s: seq<Char>) {
    |s| < |b| && b[|s|] == 0 && forall k :: 0 <= k < |s| ==> b[k] == s[k]
  }

  /** A buffer holds at most one string. */
  lemma HoldsUnique(b: seq<Byte>, s: seq<Char>, s': seq<Char>)
    requires Holds(b, s) && Holds(b, s')
    ensures s == s'
  {
    assert |s| <= |s'| && |s'| <= |s|;
  }

  method Strlen(buf: array<Byte>, ghost s: seq<Char>) returns (n: nat)
    requires Holds(buf[..], s)
    ensures n == |s|
  {
    n := 0;
    while buf[n] != 0
      invariant n <= |s|
      decreases |s| - n
    {
      n := n + 1;
    }
  }

  /** strlcpy(dst + off, src, size): copies what fits and always terminates it. */
  method Strlcpy(dst: array<Byte>, off: nat, src: seq<Char>, size: nat) returns (len: nat)
    requires off + size <= dst.Length
    modifies dst
    ensures forall k :: 0 <= k < dst.Length && !(off <= k < off + size) ==> dst[k] == old(dst[k])
    ensures 0 < size ==> Holds(dst[off..], Cut(src, size - 1))
    ensures len == |src|
  {
    len := |src|;
    if size != 0 {
      var n := if len < size - 1 then len else size - 1;
      for k := 0 to n
        invariant forall j :: 0 <= j < k ==> dst[off + j] == src[j]
        invariant forall j :: 0 <= j < dst.Length && !(off <= j < off + k) ==> dst[j] == old(dst[j])
      {
        dst[off + k] := src[k];
      }
      dst[off + n] := 0;
    }
  }

  /** strlcpy(buf + strlen(buf), src, len - strlen(buf)): append what fits. */
  method AppendTo(buf: array<Byte>, src: seq<Char>, ghost s: seq<Char>)
    requires Holds(buf[..], s)
    modifies buf
    ensures Holds(buf[..], Cut(s + src, buf.Length - 1))
  {
    var n := Strlen(buf, s);
    ghost var b0 := buf[..];
    var _ := Strlcpy(buf, n, src, buf.Length - n);
    var r := Cut(s + src, buf.Length - 1);
    ghost var tail := Cut(src, buf.Length - n - 1);
    assert forall k :: 0 <= k < |tail| ==> buf[n + k] == buf[n..][k];
    assert |r| == n + |tail| && buf[n + |tail|] == buf[n..][|tail|];
    forall k | 0 <= k < |r| ensures buf[k] == r[k] {
      if n <= k {
        assert r[k] == tail[k - n] && buf[n + (k - n)] == buf[n..][k - n];
      } else {
        assert b0[k] == s[k];
      }
    }
  }

  /** memmove within one array: correct whichever way the two regions overlap. */
  method Memmove<T>(a: array<T>, dst: nat, src: nat, n: nat)
    requires dst + n <= a.Length && src + n <= a.Length
    modifies a
    ensures forall k {:trigger a[k]} :: 0 <= k < a.Length ==>
      a[k] == if dst <= k < dst + n then old(a[..])[k - dst + src] else old(a[k])
  {
    ghost var a0 := a[..];
    if dst < src {
      for i := 0 to n
        invariant forall k {:trigger a[k]} :: 0 <= k < a.Length ==>
          a[k] == if dst <= k < dst + i then a0[k - dst + src] else a0[k]
      {
        assert a[src + i] == a0[src + i];
        a[dst + i] := a[src + i];
      }
    } else {
      for i := n downto 0
        invariant forall k {:trigger a[k]} :: 0 <= k < a.Length ==>
          a[k] == if dst + i <= k < dst + n then a0[k - dst + src] else a0[k]
      {
        assert a[src + i] == a0[src + i];
        a[dst + i] := a[src + i];
      }
    }
  }

  /** Where two strings first differ, or both end. */
  function Difference(s: seq<Char>, u: seq<Char>, i: nat): (k: nat)
    requires i <= |s| && i <= |u|
    ensures i <= k <= |s| && k <= |u|
    decreases |s| - i
  {
    if i < |s| && i < |u| && s[i] == u[i] then Difference(s, u, i + 1) else i
  }

  /** The order of strings: by the first byte that differs, a prefix before what it begins. */
  ghost predicate Less(s: seq<Char>, u: seq<Char>) {
    exists k :: 0 <= k <= |s| && k < |u| && s[..k] == u[..k] && (k == |s| || s[k] < u[k])
  }

  lemma {:induction false} DifferenceMeaning(s: seq<Char>, u: seq<Char>, i: nat)
    requires i <= |s| && i <= |u| && s[..i] == u[..i]
    ensures var k := Difference(s, u, i);
      s[..k] == u[..k] && (k == |s| || k == |u| || s[k] != u[k])
    decreases |s| - i
  {
    if i < |s| && i < |u| && s[i] == u[i] {
      assert s[..i + 1] == s[..i] + [s[i]] && u[..i + 1] == u[..i] + [u[i]];
      DifferenceMeaning(s, u, i + 1);
    }
  }

  lemma SamePrefix(s: seq<Char>, u: seq<Char>, n: nat)
    requires n <= |s| && n <= |u| && s[..n] == u[..n]
    ensures forall i :: 0 <= i < n ==> s[i] == u[i]
  {
    forall i | 0 <= i < n ensures s[i] == u[i] {
      assert s[..n][i] == u[..n][i];
    }
  }

  /** The byte of the string at `k`, its NUL included. */
  function ByteAt(s: seq<Char>, k: nat): Byte
    requires k <= |s|
  {
    if k < |s| then s[k] else 0
  }

  /** Comparing the bytes where two strings first differ compares the strings. */
  lemma DifferenceOrders(s: seq<Char>, u: seq<Char>)
    ensures var k := Difference(s, u, 0);
      && (ByteAt(s, k) == ByteAt(u, k) <==> s == u)
      && (ByteAt(s, k) < ByteAt(u, k) <==> Less(s, u))
  {
    var k := Difference(s, u, 0);
    DifferenceMeaning(s, u, 0);
    if Less(s, u) {
      var j :| 0 <= j <= |s| && j < |u| && s[..j] == u[..j] && (j == |s| || s[j] < u[j]);
      SamePrefix(s, u, j);
      SamePrefix(s, u, k);
    }
    if ByteAt(s, k) == ByteAt(u, k) {
      assert s == s[..k] && u == u[..k];
    }
  }

  /** strcmp: zero exactly for equal strings, negative exactly for a smaller first one. */
  method Strcmp(a: array<Byte>, b: array<Byte>, ghost s: seq<Char>, ghost u: seq<Char>) returns (r: int)
    requires Holds(a[..], s) && Holds(b[..], u)
    ensures r == 0 <==> s == u
    ensures r < 0 <==> Less(s, u)
  {
    var i := 0;
    while a[i] != 0 && a[i] == b[i]
      invariant i <= |s| && i <= |u| && Difference(s, u, i) == Difference(s, u, 0)
      decreases |s| - i
    {
      i := i + 1;
    }
    var x: int, y: int := a[i], b[i];
    r := x - y;
    DifferenceOrders(s, u);
    assert a[i] == ByteAt(s, i) && b[i] == ByteAt(u, i);
  }
}
