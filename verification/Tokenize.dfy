/** shell/shell.c: splitting a command line into words in place, with double quotes to group. */
module Tokenize {
  import opened Machine
  import CString
  import opened Slices

  const SPACE: Char := 32
  const QUOTE: Char := 34

  /** One word: from `start` up to `end`, the place where its NUL goes. */
  datatype Span = Span(start: nat, end: nat)

  /** The first place from `i` on that is not a space. */
  function Skip(s: seq<Char>, i: nat): (j: nat)
    requires i <= |s|
    ensures i <= j <= |s| && (j < |s| ==> s[j] != SPACE)
    decreases |s| - i
  {
    if i < |s| && s[i] == SPACE then Skip(s, i + 1) else i
  }

  /** The first place from `i` on that holds `stop`, or the end. */
  function Scan(s: seq<Char>, i: nat, stop: Char): (j: nat)
    requires i <= |s|
    ensures i <= j <= |s| && (j < |s| ==> s[j] == stop)
    decreases |s| - i
  {
    if i < |s| && s[i] != stop then Scan(s, i + 1, stop) else i
  }

  lemma {:induction false} Skipped(s: seq<Char>, i: nat, k: nat)
    requires i <= |s| && i <= k < Skip(s, i)
    ensures s[k] == SPACE
    decreases |s| - i
  {
    if i < k {
      Skipped(s, i + 1, k);
    }
  }

  lemma {:induction false} Scanned(s: seq<Char>, i: nat, stop: Char, k: nat)
    requires i <= |s| && i <= k < Scan(s, i, stop)
    ensures s[k] != stop
    decreases |s| - i
  {
    if i < k {
      Scanned(s, i + 1, stop, k);
    }
  }

  /** The word that starts at `j`. */
  function WordAt(s: seq<Char>, j: nat): (w: Span)
    requires j < |s| && s[j] != SPACE
    ensures j <= w.start <= w.end <= |s| && j < Past(s, w)
  {
    if s[j] == QUOTE then Span(j + 1, Scan(s, j + 1, QUOTE)) else Span(j, Scan(s, j, SPACE))
  }

  /** Where the scan goes on after a word. */
  function Past(s: seq<Char>, w: Span): nat {
    if w.end < |s| then w.end + 1 else w.end
  }

  /** The words of the line from `i` on, at most `max` of them. */
  function Spans(s: seq<Char>, i: nat, max: nat): seq<Span>
    requires i <= |s|
    decreases |s| - i
  {
    var j := Skip(s, i);
    if j == |s| || max == 0 then []
    else
      var w := WordAt(s, j);
      [w] + Spans(s, Past(s, w), max - 1)
  }

  // ---- The words are the line's own -------------------------------------------------------

  predicate SpanOK(s: seq<Char>, w: Span) {
    && w.start <= w.end <= |s|
    && (w.end < |s| ==> s[w.end] == SPACE || s[w.end] == QUOTE)
  }

  /** Byte `k` of the line lies in a word. */
  ghost predicate Covered(ts: seq<Span>, k: nat) {
    exists t :: 0 <= t < |ts| && ts[t].start <= k < ts[t].end
  }

  /** The words come in order and apart, and each ends at a space, a quote or the line's end. */
  lemma {:induction false} SpansApart(s: seq<Char>, i: nat, max: nat)
    requires i <= |s|
    ensures var ts := Spans(s, i, max);
      && |ts| <= max
      && (forall t :: 0 <= t < |ts| ==> SpanOK(s, ts[t]) && i <= ts[t].start)
      && (forall t, u :: 0 <= t < u < |ts| ==> ts[t].end < ts[u].start)
    decreases |s| - i
  {
    var j := Skip(s, i);
    if j < |s| && max != 0 {
      var w := WordAt(s, j);
      var rest := Spans(s, Past(s, w), max - 1);
      SpansApart(s, Past(s, w), max - 1);
      assert rest != [] ==> w.end < |s|;
    }
  }

  /** Unless the limit was hit, every byte outside the words is a space or a quote. */
  lemma {:induction false} NothingLost(s: seq<Char>, i: nat, max: nat, k: nat)
    requires i <= k < |s| && |Spans(s, i, max)| < max
    ensures Covered(Spans(s, i, max), k) || s[k] == 32 || s[k] == 34
    decreases |s| - i
  {
    var j := Skip(s, i);
    if j < |s| {
      var w := WordAt(s, j);
      var p := Past(s, w);
      var rest := Spans(s, p, max - 1);
      var ts := Spans(s, i, max);
      assert ts == [w] + rest;
      if p <= k {
        NothingLost(s, p, max - 1, k);
        if Covered(rest, k) {
          var t :| 0 <= t < |rest| && rest[t].start <= k < rest[t].end;
          assert ts[t + 1] == rest[t];
        }
      } else if w.start <= k < w.end {
        assert ts[0] == w;
      } else if k < j {
        Skipped(s, i, k);
      }
    } else {
      Skipped(s, i, k);
    }
  }

  lemma SpansMax(s: seq<Char>, max: nat)
    ensures |Spans(s, 0, max)| <= max
  {
    SpansApart(s, 0, max);
  }

  /** A smaller limit keeps the first words and drops the rest. */
  lemma {:induction false} SpansLimit(s: seq<Char>, i: nat, max: nat, more: nat)
    requires i <= |s| && max <= more
    ensures Spans(s, i, max) == if |Spans(s, i, more)| <= max then Spans(s, i, more) else Spans(s, i, more)[..max]
    decreases |s| - i
  {
    var j := Skip(s, i);
    if j < |s| && max != 0 {
      SpansLimit(s, Past(s, WordAt(s, j)), max - 1, more - 1);
    }
  }

  // ---- Quoting and splitting ------------------------------------------------------------------

  /** A word as typed: bare, in double quotes, or behind one that is never closed. */
  datatype Piece = Bare(w: seq<Char>) | Quoted(w: seq<Char>) | Open(w: seq<Char>)

  /** A bare word needs a byte and no space, and must not open a quotation; a quoted one may be
      empty and may hold spaces, but no quote. */
  predicate PieceOK(p: Piece) {
    match p
    case Bare(w) => w != [] && w[0] != QUOTE && SPACE !in w
    case _ => QUOTE !in p.w
  }

  function Text(p: Piece): seq<Char> {
    match p
    case Bare(w) => w
    case Quoted(w) => [QUOTE] + w + [QUOTE]
    case Open(w) => [QUOTE] + w
  }

  /** A piece with the spaces in front of it. */
  datatype Typed = Typed(gap: nat, p: Piece)

  /** The line typed: each piece behind its spaces, and some more spaces at the end. */
  function Line(ps: seq<Typed>, tail: nat): seq<Char> {
    if ps == [] then Repeat(SPACE, tail) else Repeat(SPACE, ps[0].gap) + Text(ps[0].p) + Line(ps[1..], tail)
  }

  /** A space is needed only behind a bare word: a closing quote ends its word by itself. A
      quotation left open takes in all that is behind it. */
  predicate LineOK(ps: seq<Typed>, tail: nat) {
    ps == [] ||
    (PieceOK(ps[0].p) && (1 < |ps| && ps[0].p.Bare? ==> 0 < ps[1].gap)
     && (ps[0].p.Open? ==> |ps| == 1 && tail == 0) && LineOK(ps[1..], tail))
  }

  /** The bytes of span `w` in `s`. */
  function Word(s: seq<Char>, w: Span): seq<Char>
    requires w.start <= w.end <= |s|
  {
    s[w.start..w.end]
  }

  lemma ScanIs(s: seq<Char>, i: nat, stop: Char, e: nat)
    requires i <= e <= |s| && (e < |s| ==> s[e] == stop)
    requires forall k :: i <= k < e ==> s[k] != stop
    ensures Scan(s, i, stop) == e
  {
    if e < Scan(s, i, stop) {
      Scanned(s, i, stop, e);
    }
  }

  /** Behind a quote the word goes up to the next one, or to the end of the line. */
  lemma QuotedIsWord(s: seq<Char>, i: nat, w: seq<Char>)
    requires Stands(s, i, [QUOTE] + w) && QUOTE !in w
    requires i + 1 + |w| < |s| ==> s[i + 1 + |w|] == QUOTE
    ensures i < |s| && s[i] == QUOTE && i + 1 + |w| <= |s|
    ensures WordAt(s, i) == Span(i + 1, i + 1 + |w|) && Word(s, WordAt(s, i)) == w
  {
    StandsEverywhere(s, i, [QUOTE] + w);
    assert s[i] == ([QUOTE] + w)[0];
    assert forall k {:trigger s[k]} :: i + 1 <= k < i + 1 + |w| ==> s[k] == w[k - i - 1];
    ScanIs(s, i + 1, QUOTE, i + 1 + |w|);
  }

  /** A quoted piece is one word, and so is a bare one before a space or the end of the line, and an
      open one at the end of the line. */
  lemma PieceIsWord(s: seq<Char>, i: nat, p: Piece)
    requires PieceOK(p) && Stands(s, i, Text(p))
    requires p.Bare? && i + |Text(p)| < |s| ==> s[i + |Text(p)|] == SPACE
    requires p.Open? ==> i + |Text(p)| == |s|
    ensures i < |s| && s[i] != SPACE && Word(s, WordAt(s, i)) == p.w
    ensures !p.Quoted? ==> WordAt(s, i).end == i + |Text(p)|
    ensures p.Quoted? ==> WordAt(s, i).end == i + |Text(p)| - 1
  {
    match p
    case Quoted(w) =>
      StandsSplit(s, i, [QUOTE] + w, [QUOTE]);
      QuotedIsWord(s, i, w);
    case Open(w) => QuotedIsWord(s, i, w);
    case Bare(w) =>
      StandsEverywhere(s, i, w);
      assert w[0] in w;
      ScanIs(s, i, SPACE, i + |w|);
  }

  lemma GapSpaces(s: seq<Char>, i: nat, g: nat)
    requires Stands(s, i, Repeat(SPACE, g))
    ensures i + g <= |s| && forall k :: i <= k < i + g ==> s[k] == SPACE
  {
    StandsEverywhere(s, i, Repeat(SPACE, g));
  }

  lemma LineParts(ps: seq<Typed>, tail: nat) returns (g: seq<Char>, t: seq<Char>, m: seq<Char>)
    requires ps != []
    ensures g == Repeat(SPACE, ps[0].gap) && t == Text(ps[0].p) && m == Line(ps[1..], tail)
    ensures Line(ps, tail) == g + t + m
  {
    g, t, m := Repeat(SPACE, ps[0].gap), Text(ps[0].p), Line(ps[1..], tail);
  }

  /** Where the first piece of a line stands, and where the rest of the line does. */
  lemma LineStands(s: seq<Char>, i: nat, ps: seq<Typed>, tail: nat) returns (j: nat, q: nat)
    requires ps != [] && Stands(s, i, Line(ps, tail)) && i + |Line(ps, tail)| == |s|
    ensures j == i + ps[0].gap && Stands(s, i, Repeat(SPACE, ps[0].gap))
    ensures Stands(s, j, Text(ps[0].p)) && q == j + |Text(ps[0].p)|
    ensures Stands(s, q, Line(ps[1..], tail)) && q + |Line(ps[1..], tail)| == |s|
  {
    var g, t, m := LineParts(ps, tail);
    StandsThree(s, i, g, t, m);
    j, q := i + |g|, i + |g| + |t|;
  }

  /** Behind a bare word the line goes on with a space, if at all. */
  lemma SpaceBehind(s: seq<Char>, q: nat, ps: seq<Typed>, tail: nat)
    requires ps != [] && LineOK(ps, tail) && ps[0].p.Bare?
    requires Stands(s, q, Line(ps[1..], tail)) && q < |s| && q + |Line(ps[1..], tail)| == |s|
    ensures s[q] == SPACE
  {
    StandsAt(s, q, Line(ps[1..], tail), 0);
    if 1 < |ps| {
      var g := Repeat(SPACE, ps[1].gap);
      assert ps[1..][0] == ps[1] && g[0] == SPACE;
      assert Line(ps[1..], tail)[0] == g[0];
    }
  }

  /** A space in front of the words makes no difference. */
  lemma LeadingSpace(s: seq<Char>, i: nat, max: nat)
    requires i < |s| && s[i] == SPACE
    ensures Tokens(s, i, max) == Tokens(s, i + 1, max)
  {
  }

  lemma {:induction false} LeadingSpaces(s: seq<Char>, i: nat, j: nat, max: nat)
    requires i <= j <= |s| && forall k :: i <= k < j ==> s[k] == SPACE
    ensures Tokens(s, i, max) == Tokens(s, j, max)
    decreases j - i
  {
    if i < j {
      LeadingSpace(s, i, max);
      LeadingSpaces(s, i + 1, j, max);
    }
  }

  /** The words themselves, from `i` on. */
  function Tokens(s: seq<Char>, i: nat, max: nat): seq<seq<Char>>
    requires i <= |s|
    decreases |s| - i
  {
    var j := Skip(s, i);
    if j == |s| || max == 0 then []
    else
      var w := WordAt(s, j);
      [Word(s, w)] + Tokens(s, Past(s, w), max - 1)
  }

  lemma {:induction false} TokenCount(s: seq<Char>, i: nat, max: nat)
    requires i <= |s|
    ensures |Tokens(s, i, max)| == |Spans(s, i, max)|
    decreases |s| - i
  {
    var j := Skip(s, i);
    if j < |s| && max != 0 {
      TokenCount(s, Past(s, WordAt(s, j)), max - 1);
    }
  }

  /** The t-th word is what the t-th span cuts out. */
  lemma {:induction false} TokenIsSpan(s: seq<Char>, i: nat, max: nat, t: nat)
    requires i <= |s| && t < |Spans(s, i, max)|
    ensures t < |Tokens(s, i, max)|
    ensures var w := Spans(s, i, max)[t]; w.start <= w.end <= |s| && Tokens(s, i, max)[t] == Word(s, w)
    decreases |s| - i
  {
    TokenCount(s, i, max);
    if 0 < t {
      var p := Past(s, WordAt(s, Skip(s, i)));
      TokenIsSpan(s, p, max - 1, t - 1);
    }
  }

  /** The words the pieces stand for. */
  function Meant(ps: seq<Typed>): seq<seq<Char>> {
    if ps == [] then [] else [ps[0].p.w] + Meant(ps[1..])
  }

  lemma TokensCons(s: seq<Char>, i: nat, max: nat)
    requires i < |s| && s[i] != SPACE && max != 0
    ensures Tokens(s, i, max) == [Word(s, WordAt(s, i))] + Tokens(s, Past(s, WordAt(s, i)), max - 1)
  {
  }

  /** Where the scan goes on behind a piece. */
  lemma PiecePast(s: seq<Char>, i: nat, p: Piece, q: nat) returns (w: Span, n: nat)
    requires PieceOK(p) && Stands(s, i, Text(p))
    requires q == i + |Text(p)| && (p.Bare? && q < |s| ==> s[q] == SPACE) && (p.Open? ==> q == |s|)
    ensures i < |s| && s[i] != SPACE && w == WordAt(s, i) && Word(s, w) == p.w
    ensures n == Past(s, w) && (n == q || (n == q + 1 && q < |s| && s[q] == SPACE))
  {
    PieceIsWord(s, i, p);
    w := WordAt(s, i);
    n := Past(s, w);
  }

  /** Splitting from `i` on gives these words. */
  ghost predicate SplitsInto(s: seq<Char>, i: nat, max: nat, words: seq<seq<Char>>) {
    i <= |s| && Tokens(s, i, max) == words
  }

  lemma PieceFirst(s: seq<Char>, i: nat, p: Piece, q: nat, max: nat)
    returns (n: nat, less: nat, words: seq<seq<Char>>)
    requires PieceOK(p) && Stands(s, i, Text(p)) && max != 0
    requires q == i + |Text(p)| && (p.Bare? && q < |s| ==> s[q] == SPACE) && (p.Open? ==> q == |s|)
    ensures n == q || (n == q + 1 && q < |s| && s[q] == SPACE)
    ensures less == max - 1 && SplitsInto(s, n, less, words) && SplitsInto(s, i, max, [p.w] + words)
  {
    var w;
    w, n := PiecePast(s, i, p, q);
    less, words := max - 1, Tokens(s, n, max - 1);
    TokensCons(s, i, max);
  }

  lemma SpacesBefore(s: seq<Char>, i: nat, j: nat, max: nat, words: seq<seq<Char>>)
    requires i <= j && SplitsInto(s, j, max, words) && forall k :: i <= k < j ==> s[k] == SPACE
    ensures SplitsInto(s, i, max, words)
  {
    LeadingSpaces(s, i, j, max);
  }

  /** A piece is the first word, and the words go on behind it. */
  lemma NextPiece(s: seq<Char>, i: nat, p: Piece, q: nat, max: nat)
    returns (less: nat, words: seq<seq<Char>>)
    requires PieceOK(p) && Stands(s, i, Text(p)) && max != 0
    requires q == i + |Text(p)| && (p.Bare? && q < |s| ==> s[q] == SPACE) && (p.Open? ==> q == |s|)
    ensures less == max - 1 && SplitsInto(s, q, less, words) && SplitsInto(s, i, max, [p.w] + words)
  {
    var n;
    n, less, words := PieceFirst(s, i, p, q, max);
    SpacesBefore(s, q, n, less, words);
  }

  /** A line of spaces has no words. */
  lemma NoPieces(s: seq<Char>, i: nat, tail: nat, max: nat)
    requires Stands(s, i, Repeat(SPACE, tail)) && i + tail == |s|
    ensures SplitsInto(s, i, max, [])
  {
    GapSpaces(s, i, tail);
    SpacesBefore(s, i, |s|, max, []);
  }

  lemma MorePieces(ps: seq<Typed>, tail: nat)
    requires ps != [] && LineOK(ps, tail)
    ensures PieceOK(ps[0].p) && LineOK(ps[1..], tail) && Meant(ps) == [ps[0].p.w] + Meant(ps[1..])
  {
  }

  /** The line from `i` on is typed from these pieces, and is split back into them. */
  ghost predicate Typeset(s: seq<Char>, i: nat, ps: seq<Typed>, tail: nat) {
    Stands(s, i, Line(ps, tail)) && i + |Line(ps, tail)| == |s| && LineOK(ps, tail)
  }

  /** The words of a line begin with its first piece, and go on with those of the rest. */
  lemma FirstPiece(s: seq<Char>, i: nat, ps: seq<Typed>, tail: nat, max: nat)
    returns (q: nat, less: nat, words: seq<seq<Char>>)
    requires Typeset(s, i, ps, tail) && ps != [] && |ps| <= max
    ensures Stands(s, q, Line(ps[1..], tail)) && q + |Line(ps[1..], tail)| == |s| && |ps| <= less + 1
    ensures SplitsInto(s, q, less, words) && SplitsInto(s, i, max, [ps[0].p.w] + words)
  {
    var j;
    j, q := LineStands(s, i, ps, tail);
    if ps[0].p.Bare? && q < |s| {
      SpaceBehind(s, q, ps, tail);
    }
    assert ps[0].p.Open? ==> |Line(ps[1..], tail)| == 0;
    GapSpaces(s, i, ps[0].gap);
    less, words := NextPiece(s, j, ps[0].p, q, max);
    SpacesBefore(s, i, j, max, [ps[0].p.w] + words);
  }

  lemma OnlySpaces(s: seq<Char>, i: nat, ps: seq<Typed>, tail: nat, max: nat)
    requires Typeset(s, i, ps, tail) && ps == []
    ensures SplitsInto(s, i, max, Meant(ps))
  {
    NoPieces(s, i, tail, max);
  }

  lemma SameWords(s: seq<Char>, i: nat, max: nat, u: seq<seq<Char>>, v: seq<seq<Char>>)
    requires SplitsInto(s, i, max, u) && SplitsInto(s, i, max, v)
    ensures u == v
  {
  }

  /** Where the second piece starts, and what splitting from there gives. */
  lemma FromSecond(s: seq<Char>, i: nat, ps: seq<Typed>, tail: nat, max: nat)
    returns (q: nat, rest: seq<Typed>, less: nat, words: seq<seq<Char>>)
    requires Typeset(s, i, ps, tail) && ps != [] && |ps| <= max
    ensures Typeset(s, q, rest, tail) && |rest| < |ps| && |rest| <= less && SplitsInto(s, q, less, words)
    ensures words == Meant(rest) ==> SplitsInto(s, i, max, Meant(ps))
  {
    q, less, words := FirstPiece(s, i, ps, tail, max);
    rest := ps[1..];
    MorePieces(ps, tail);
  }

  lemma {:induction false} TypesetSplits(s: seq<Char>, i: nat, ps: seq<Typed>, tail: nat, max: nat)
    requires Typeset(s, i, ps, tail) && |ps| <= max
    ensures SplitsInto(s, i, max, Meant(ps))
    decreases |ps|
  {
    if ps == [] {
      OnlySpaces(s, i, ps, tail, max);
    } else {
      var q, rest, less, words := FromSecond(s, i, ps, tail, max);
      TypesetSplits(s, q, rest, tail, less);
      SameWords(s, q, less, words, Meant(rest));
    }
  }

  /** Splitting undoes quoting: every list of words within the limit, quoted or bare, with any
      spaces around them, comes back word for word; so does the last one when its quotation is left
      open, up to the end of the line. */
  lemma SplitUndoesQuoting(ps: seq<Typed>, tail: nat, max: nat)
    requires LineOK(ps, tail) && |ps| <= max
    ensures Tokens(Line(ps, tail), 0, max) == Meant(ps)
  {
    var s := Line(ps, tail);
    assert s[0..|s|] == s;
    TypesetSplits(s, 0, ps, tail, max);
  }

  // ---- The loop ----------------------------------------------------------------------------

  /** One of the first `n` words ends at `k`. */
  ghost predicate Cuts(ts: seq<Span>, n: nat, k: nat)
    requires n <= |ts|
  {
    exists t :: 0 <= t < n && ts[t].end == k
  }

  lemma CutsMore(ts: seq<Span>, n: nat)
    requires n < |ts|
    ensures forall k :: Cuts(ts, n + 1, k) <==> Cuts(ts, n, k) || ts[n].end == k
  {
    forall k: nat | Cuts(ts, n, k) || ts[n].end == k ensures Cuts(ts, n + 1, k) {
      var t :| 0 <= t < n + 1 && ts[t].end == k;
    }
  }

  /** The first `n` words of `ts` end before place `p`, and the others come after it. */
  ghost predicate Done(s: seq<Char>, ts: seq<Span>, n: nat, p: nat, max: nat) {
    p <= |s| && n <= |ts| && n <= max && ts[n..] == Spans(s, p, max - n)
  }

  lemma DoneStep(s: seq<Char>, ts: seq<Span>, n: nat, p: nat, max: nat)
    requires Done(s, ts, n, p, max) && Skip(s, p) < |s| && n < max
    ensures var w := WordAt(s, Skip(s, p));
      n < |ts| && ts[n] == w && Done(s, ts, n + 1, Past(s, w), max)
  {
    assert ts[n] == ts[n..][0] && ts[n + 1..] == ts[n..][1..];
  }

  lemma DoneEnd(s: seq<Char>, ts: seq<Span>, n: nat, p: nat, max: nat)
    requires Done(s, ts, n, p, max) && (Skip(s, p) == |s| || n == max)
    ensures n == |ts|
  {
  }

  /** The buffer still holds the line from `p` on, with its NUL. */
  ghost predicate Left(b: seq<Byte>, s: seq<Char>, p: nat) {
    |s| < |b| && b[|s|] == 0 && forall k {:trigger b[k]} :: p <= k < |s| ==> b[k] == s[k]
  }

  method SkipSpaces(line: array<Byte>, from: nat, ghost s: seq<Char>) returns (p: nat)
    requires from <= |s| && Left(line[..], s, from)
    ensures p == Skip(s, from)
  {
    p := from;
    while line[p] == SPACE
      invariant from <= p <= |s| && Skip(s, p) == Skip(s, from)
      decreases |s| - p
    {
      p := p + 1;
    }
  }

  method ScanTo(line: array<Byte>, from: nat, stop: Char, ghost s: seq<Char>) returns (p: nat)
    requires from <= |s| && Left(line[..], s, from)
    ensures p == Scan(s, from, stop)
  {
    p := from;
    while line[p] != 0 && line[p] != stop
      invariant from <= p <= |s| && Scan(s, p, stop) == Scan(s, from, stop)
      decreases |s| - p
    {
      p := p + 1;
    }
  }

  /** One round of the loop: note where the word starts, run to its end, put a NUL there. */
  method TakeWord(line: array<Byte>, argv: array<nat>, n: nat, from: nat, ghost s: seq<Char>) returns (p: nat)
    requires from < |s| && s[from] != SPACE && Left(line[..], s, from) && n < argv.Length
    modifies line, argv
    ensures var w := WordAt(s, from);
      && p == Past(s, w) && Left(line[..], s, p) && argv[n] == w.start
      && forall k :: 0 <= k < line.Length ==> line[k] == if k == w.end then 0 else old(line[k])
    ensures forall t :: 0 <= t < argv.Length && t != n ==> argv[t] == old(argv[t])
  {
    p := from;
    if line[p] == QUOTE {
      p := p + 1;
      argv[n] := p;
      p := ScanTo(line, p, QUOTE, s);
    } else {
      argv[n] := p;
      p := ScanTo(line, p, SPACE, s);
    }
    if line[p] != 0 {
      line[p] := 0;
      p := p + 1;
    }
  }

  /** The first `n` entries of argv are where the words start, and the others are as they were. */
  ghost predicate Pointing(argv: seq<nat>, was: seq<nat>, ts: seq<Span>, n: nat) {
    && n <= |ts| && n <= |argv| == |was|
    && (forall t :: 0 <= t < n ==> argv[t] == ts[t].start)
    && (forall t :: n <= t < |argv| ==> argv[t] == was[t])
  }

  /** The byte behind each of the first `n` words is NUL, and the others are as they were. */
  ghost predicate Blanked(line: seq<Byte>, was: seq<Byte>, ts: seq<Span>, n: nat) {
    n <= |ts| && |line| == |was| && forall k :: 0 <= k < |line| ==> line[k] == if Cuts(ts, n, k) then 0 else was[k]
  }

  lemma PointingMore(argv: seq<nat>, next: seq<nat>, was: seq<nat>, ts: seq<Span>, n: nat)
    requires Pointing(argv, was, ts, n) && n < |ts| && n < |argv| == |next| && next[n] == ts[n].start
    requires forall t :: 0 <= t < |argv| && t != n ==> next[t] == argv[t]
    ensures Pointing(next, was, ts, n + 1)
  {
  }

  lemma BlankedMore(line: seq<Byte>, next: seq<Byte>, was: seq<Byte>, ts: seq<Span>, n: nat)
    requires Blanked(line, was, ts, n) && n < |ts| && |line| == |next|
    requires forall k :: 0 <= k < |line| ==> next[k] == if k == ts[n].end then 0 else line[k]
    ensures Blanked(next, was, ts, n + 1)
  {
    CutsMore(ts, n);
  }

  /** tokenize: argv points at the words, and only the byte behind each word becomes NUL. */
  method Split(line: array<Byte>, argv: array<nat>, max: nat, ghost s: seq<Char>) returns (argc: nat)
    requires CString.Holds(line[..], s) && max <= argv.Length
    modifies line, argv
    ensures argc == |Spans(s, 0, max)| <= max
    ensures Pointing(argv[..], old(argv[..]), Spans(s, 0, max), argc)
    ensures Blanked(line[..], old(line[..]), Spans(s, 0, max), argc)
  {
    argc := 0;
    var p: nat := 0;
    SpansMax(s, max);
    ghost var ts := Spans(s, 0, max);
    while line[p] != 0
      invariant p <= |s| && argc <= |ts| && Done(s, ts, argc, p, max)
      invariant Left(line[..], s, p)
      invariant Pointing(argv[..], old(argv[..]), ts, argc)
      invariant Blanked(line[..], old(line[..]), ts, argc)
      decreases |s| - p
    {
      ghost var p0 := p;
      p := SkipSpaces(line, p, s);
      if line[p] == 0 || argc >= max {
        DoneEnd(s, ts, argc, p0, max);
        break;
      }
      DoneStep(s, ts, argc, p0, max);
      ghost var line0, argv0 := line[..], argv[..];
      p := TakeWord(line, argv, argc, p, s);
      PointingMore(argv0, argv[..], old(argv[..]), ts, argc);
      BlankedMore(line0, line[..], old(line[..]), ts, argc);
      argc := argc + 1;
    }
  }

  /** After tokenize, argv[t] is the NUL-terminated t-th word, in place in the line. */
  lemma TokenHolds(was: seq<Byte>, now: seq<Byte>, s: seq<Char>, max: nat, t: nat)
    requires CString.Holds(was, s) && t < |Spans(s, 0, max)|
    requires Blanked(now, was, Spans(s, 0, max), |Spans(s, 0, max)|)
    ensures var w := Spans(s, 0, max)[t]; w.start <= w.end <= |s| && CString.Holds(now[w.start..], Word(s, w))
  {
    SpansApart(s, 0, max);
    var ts := Spans(s, 0, max);
    var w := ts[t];
    assert Cuts(ts, |ts|, w.end);
    forall k | w.start <= k < w.end ensures now[k] == s[k] {
      forall u | 0 <= u < |ts| ensures ts[u].end != k {
        assert SpanOK(s, ts[u]);
        assert u < t ==> ts[u].end < ts[t].start;
        assert t < u ==> ts[t].end < ts[u].start;
      }
      assert !Cuts(ts, |ts|, k);
    }
  }
}
