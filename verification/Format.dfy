/** lib/kprintf.c: unsigned numbers as digits, padded into fields; and the shell's atoi_simple. */
module Format {
  import opened Machine
  import CString
  import opened Slices

  // ---- Numerals ----------------------------------------------------------------------------

  predicate BaseOK(base: nat) {
    base == 10 || base == 16
  }

  /** v / base, v % base and v * base for the two bases in use. */
  function Quot(v: nat, base: nat): nat
    requires BaseOK(base)
  {
    if base == 10 then v / 10 else v / 16
  }

  function Rem(v: nat, base: nat): (r: nat)
    requires BaseOK(base)
    ensures r < base
  {
    if base == 10 then v % 10 else v % 16
  }

  function Scale(v: nat, base: nat): nat
    requires BaseOK(base)
  {
    if base == 10 then 10 * v else 16 * v
  }

  /** digits[d]. */
  function Digit(d: nat, upper: bool): Char
    requires d < 16
  {
    if d < 10 then 48 + d else if upper then 55 + d else 87 + d
  }

  /** The value of a digit in either case; 16 for any other byte. */
  function DigitValue(c: Byte): nat {
    if 48 <= c <= 57 then c - 48
    else if 65 <= c <= 70 then c - 55
    else if 97 <= c <= 102 then c - 87
    else 16
  }

  /** The numeral of `v`: what format_num leaves in the buffer. */
  function Numeral(v: nat, base: nat, upper: bool): (s: seq<Char>)
    requires BaseOK(base)
    ensures s != []
  {
    if v < base then [Digit(v, upper)]
    else Numeral(Quot(v, base), base, upper) + [Digit(Rem(v, base), upper)]
  }

  predicate IsDigits(s: seq<Byte>, base: nat) {
    forall k :: 0 <= k < |s| ==> DigitValue(s[k]) < base
  }

  /** What a digit string stands for. */
  function Parse(s: seq<Byte>, base: nat): nat
    requires BaseOK(base)
  {
    if s == [] then 0 else Scale(Parse(s[..|s| - 1], base), base) + DigitValue(s[|s| - 1])
  }

  /** Reading a numeral gives back the number, whichever base and case. */
  lemma {:induction false} ParseUndoesFormat(v: nat, base: nat, upper: bool)
    requires BaseOK(base)
    ensures IsDigits(Numeral(v, base, upper), base) && Parse(Numeral(v, base, upper), base) == v
    decreases v
  {
    if base <= v {
      ParseUndoesFormat(Quot(v, base), base, upper);
      var s := Numeral(v, base, upper);
      assert s[..|s| - 1] == Numeral(Quot(v, base), base, upper);
    }
  }

  /** %X writes no lower-case digit, %x and %u no upper-case one. */
  lemma {:induction false} NumeralCase(v: nat, base: nat, upper: bool)
    requires BaseOK(base)
    ensures forall c :: c in Numeral(v, base, upper) ==>
      48 <= c <= 57 || if upper then 65 <= c <= 70 else 97 <= c <= 102
    decreases v
  {
    if base <= v {
      NumeralCase(Quot(v, base), base, upper);
    }
  }

  /** No superfluous zero in front. */
  lemma {:induction false} NoLeadingZero(v: nat, base: nat, upper: bool)
    requires BaseOK(base)
    ensures Numeral(v, base, upper)[0] == 48 <==> v == 0
    ensures v == 0 ==> Numeral(v, base, upper) == [48]
    decreases v
  {
    if base <= v {
      NoLeadingZero(Quot(v, base), base, upper);
    }
  }

  function Power(base: nat, n: nat): nat
    requires BaseOK(base)
  {
    if n == 0 then 1 else Scale(Power(base, n - 1), base)
  }

  /** How many digits a number has. */
  lemma {:induction false} NumeralLength(v: nat, base: nat, upper: bool, n: nat)
    requires BaseOK(base) && 0 < n
    ensures |Numeral(v, base, upper)| <= n <==> v < Power(base, n)
    decreases n
  {
    if n == 1 {
      assert Power(base, 1) == base;
    } else if base <= v {
      NumeralLength(Quot(v, base), base, upper, n - 1);
      DivideBelow(v, base, Power(base, n - 1));
    } else {
      NumeralLength(v, base, upper, n - 1);
      PowerGrows(base, n - 1);
    }
  }

  lemma DivideBelow(v: nat, base: nat, p: nat)
    requires BaseOK(base)
    ensures Quot(v, base) < p <==> v < Scale(p, base)
  {
  }

  lemma PowerGrows(base: nat, n: nat)
    requires BaseOK(base)
    ensures Power(base, n) <= Power(base, n + 1)
  {
  }

  lemma WordPowers()
    ensures Power(16, 8) == 0x1_0000_0000 && Power(10, 10) == 10_000_000_000
  {
    assert Power(16, 4) == 0x1_0000;
    assert Power(10, 5) == 100_000;
  }

  /** Every 32-bit number takes at most ten decimal or eight hexadecimal digits. */
  lemma WordLength(v: Word, base: nat, upper: bool)
    requires BaseOK(base)
    ensures |Numeral(v, base, upper)| <= if base == 10 then 10 else 8
  {
    WordPowers();
    NumeralLength(v, base, upper, if base == 10 then 10 else 8);
  }

  /** The digits of a nonempty string without superfluous zeros are the numeral of its value: no
      number has two numerals. */
  lemma {:induction false} FormatUndoesParse(s: seq<Char>, base: nat, upper: bool)
    requires BaseOK(base) && s != [] && IsDigits(s, base) && (s[0] == 48 ==> |s| == 1)
    requires forall k :: 0 <= k < |s| ==> s[k] == Digit(DigitValue(s[k]), upper)
    ensures Numeral(Parse(s, base), base, upper) == s
    decreases |s|
  {
    var n := |s| - 1;
    if n == 0 {
      assert Parse(s[..0], base) == 0;
    } else {
      var t := s[..n];
      FormatUndoesParse(t, base, upper);
      NoLeadingZero(Parse(t, base), base, upper);
      var d := DigitValue(s[n]);
      var v := Parse(s, base);
      assert v == Scale(Parse(t, base), base) + d;
      assert Quot(v, base) == Parse(t, base) && Rem(v, base) == d;
      assert s == t + [s[n]];
    }
  }

  // ---- Fields ------------------------------------------------------------------------------

  /** What emit writes: the string in a field `width` wide. */
  function Field(s: seq<Byte>, width: nat, left: bool, fill: Byte): seq<Byte> {
    var gap := if width > |s| then width - |s| else 0;
    if left then s + Repeat(32, gap) else Repeat(fill, gap) + s
  }

  /** A field is as wide as asked for, or as its string when that is wider. To the left its string
      has spaces behind it, to the right the fill in front. */
  lemma FieldMeaning(s: seq<Byte>, width: nat, left: bool, fill: Byte)
    ensures var f := Field(s, width, left, fill);
      && |f| == (if width < |s| then |s| else width)
      && (left ==> f[..|s|] == s && forall k :: |s| <= k < |f| ==> f[k] == 32)
      && (!left ==> f[|f| - |s|..] == s && forall k :: 0 <= k < |f| - |s| ==> f[k] == fill)
  {
  }

  /** Zeros in front of a digit string do not change its value. */
  lemma {:induction false} ParseZeros(n: nat, s: seq<Byte>, base: nat)
    requires BaseOK(base)
    ensures Parse(Repeat<Byte>(48, n) + s, base) == Parse(s, base)
    decreases n + |s|
  {
    var t := Repeat<Byte>(48, n) + s;
    if s != [] {
      assert t[..|t| - 1] == Repeat<Byte>(48, n) + s[..|s| - 1];
      ParseZeros(n, s[..|s| - 1], base);
    } else if n != 0 {
      assert t[..n - 1] == Repeat<Byte>(48, n - 1) + [];
      ParseZeros(n - 1, [], base);
    }
  }

  /** %0Nx and %0Nu: N digits, or more when the number needs them, that read back as the number. */
  lemma ZeroField(v: nat, base: nat, upper: bool, width: nat)
    requires BaseOK(base)
    ensures var f := Field(Numeral(v, base, upper), width, false, 48);
      && IsDigits(f, base) && Parse(f, base) == v
      && |f| == if width > |Numeral(v, base, upper)| then width else |Numeral(v, base, upper)|
  {
    var s := Numeral(v, base, upper);
    ParseUndoesFormat(v, base, upper);
    ParseZeros(if width > |s| then width - |s| else 0, s, base);
  }

  // ---- The loops -----------------------------------------------------------------------------

  /** The digits of `v`, last one first. */
  function Backwards(v: nat, base: nat, upper: bool): seq<Char>
    requires BaseOK(base)
  {
    if v < base then [Digit(v, upper)] else [Digit(Rem(v, base), upper)] + Backwards(Quot(v, base), base, upper)
  }

  lemma TurnedMore(s: seq<Char>, b: seq<Char>, d: Char)
    requires |b| == |s| && forall k :: 0 <= k < |s| ==> s[k] == b[|s| - 1 - k]
    ensures var t, c := s + [d], [d] + b;
      |c| == |t| && forall k :: 0 <= k < |t| ==> t[k] == c[|t| - 1 - k]
  {
  }

  lemma {:induction false} BackwardsIs(v: nat, base: nat, upper: bool)
    requires BaseOK(base)
    ensures var s, b := Numeral(v, base, upper), Backwards(v, base, upper);
      |b| == |s| && forall k :: 0 <= k < |s| ==> s[k] == b[|s| - 1 - k]
    decreases v
  {
    if base <= v {
      var q, d := Quot(v, base), Digit(Rem(v, base), upper);
      BackwardsIs(q, base, upper);
      TurnedMore(Numeral(q, base, upper), Backwards(q, base, upper), d);
    }
  }

  /** The digits still to come when `v` is left. */
  function Rest(v: nat, base: nat, upper: bool): seq<Char>
    requires BaseOK(base)
  {
    if v == 0 then [] else Backwards(v, base, upper)
  }

  /** One round of the loop: the next digit, and a smaller number with the digits to come. */
  lemma RestStep(v: nat, base: nat, upper: bool) returns (rest: seq<Char>)
    requires BaseOK(base)
    ensures Backwards(v, base, upper) == [Digit(Rem(v, base), upper)] + rest
    ensures rest == Rest(Quot(v, base), base, upper)
    ensures v != 0 ==> Quot(v, base) < v
  {
    rest := Rest(Quot(v, base), base, upper);
  }

  lemma BackwardsLength(v: Word, base: nat, upper: bool)
    requires BaseOK(base)
    ensures |Backwards(v, base, upper)| <= 10
  {
    WordLength(v, base, upper);
    BackwardsIs(v, base, upper);
  }

  /** Writing the next of `left` behind what is written. */
  method PutDigit(tmp: array<Byte>, n: nat, d: Char, ghost all: seq<Byte>, ghost rest: seq<Byte>)
    requires n < |all| <= tmp.Length && all == tmp[..n] + ([d] + rest)
    modifies tmp
    ensures all == tmp[..n + 1] + rest
  {
    tmp[n] := d;
  }

  /** The do-while loop of format_num: digits come out last one first. */
  method DigitsOf(tmp: array<Byte>, value: Word, base: nat, upper: bool) returns (n: nat)
    requires BaseOK(base) && 16 <= tmp.Length
    modifies tmp
    ensures n == |Backwards(value, base, upper)| <= 10
    ensures tmp[..n] == Backwards(value, base, upper)
  {
    ghost var all := Backwards(value, base, upper);
    BackwardsLength(value, base, upper);
    var v: nat := value;
    n := 0;
    while true
      invariant n < |all| <= 10 && all == tmp[..n] + Backwards(v, base, upper)
      decreases v
    {
      ghost var rest := RestStep(v, base, upper);
      PutDigit(tmp, n, Digit(Rem(v, base), upper), all, rest);
      n := n + 1;
      v := Quot(v, base);
      if v == 0 {
        break;
      }
    }
  }

  /** format_num: the numeral at the front of the buffer, and its length. */
  method FormatNum(buf: array<Byte>, value: Word, base: nat, upper: bool) returns (n: nat)
    requires BaseOK(base) && 16 <= buf.Length
    modifies buf
    ensures n <= buf.Length && buf[..n] == Numeral(value, base, upper)
    ensures forall k :: n <= k < buf.Length ==> buf[k] == old(buf[k])
  {
    var tmp := new Byte[16];
    n := DigitsOf(tmp, value, base, upper);
    BackwardsIs(value, base, upper);
    for i := 0 to n
      modifies buf
      invariant forall k :: 0 <= k < i ==> buf[k] == tmp[n - 1 - k]
      invariant forall k :: n <= k < buf.Length ==> buf[k] == old(buf[k])
    {
      buf[i] := tmp[n - 1 - i];
    }
  }

  /** The console: everything that was put on it. */
  class Console {
    var out: seq<Byte>

    constructor ()
      ensures out == []
    {
      out := [];
    }

    method Putc(c: Byte)
      modifies this
      ensures out == old(out) + [c]
    {
      out := out + [c];
    }

    method Write(s: seq<Byte>)
      modifies this
      ensures out == old(out) + s
    {
      for k := 0 to |s|
        invariant out == old(out) + s[..k]
      {
        Putc(s[k]);
        assert s[..k + 1] == s[..k] + [s[k]];
      }
      assert s[..|s|] == s;
    }

    method Pad(c: Byte, n: nat)
      modifies this
      ensures out == old(out) + Repeat(c, n)
    {
      for k := 0 to n
        invariant out == old(out) + Repeat(c, k)
      {
        Putc(c);
        assert Repeat(c, k + 1) == Repeat(c, k) + [c];
      }
    }

    method Emit(buf: array<Byte>, len: nat, width: nat, left: bool, fill: Byte)
      requires len <= buf.Length
      modifies this
      ensures out == old(out) + Field(buf[..len], width, left, fill)
    {
      var gap := if width > len then width - len else 0;
      if !left {
        Pad(fill, gap);
      }
      Write(buf[..len]);
      if left {
        Pad(32, gap);
      }
    }

    /** The %u, %x and %X conversions. */
    method PrintUnsigned(value: Word, base: nat, upper: bool, width: nat, left: bool, fill: Byte)
      requires BaseOK(base)
      modifies this
      ensures out == old(out) + Field(Numeral(value, base, upper), width, left, fill)
    {
      var buf := new Byte[16];
      var len := FormatNum(buf, value, base, upper);
      Emit(buf, len, width, left, fill);
    }
  }

  // ---- atoi_simple ------------------------------------------------------------------------------

  const INT_MAX: nat := 0x7FFF_FFFF

  predicate IsDecimal(c: Byte) {
    48 <= c <= 57
  }

  /** How many decimal digits `s` starts with, counted from `i`. */
  function DigitsEnd(s: seq<Byte>, i: nat): (j: nat)
    requires i <= |s|
    ensures i <= j <= |s|
    decreases |s| - i
  {
    if i < |s| && IsDecimal(s[i]) then DigitsEnd(s, i + 1) else i
  }

  /** atoi_simple, for digits that make an `int`; beyond that the C arithmetic is undefined. */
  method Atoi(s: array<Byte>, ghost str: seq<Char>) returns (v: nat)
    requires CString.Holds(s[..], str)
    requires Parse(str[..DigitsEnd(str, 0)], 10) <= INT_MAX
    ensures v == Parse(str[..DigitsEnd(str, 0)], 10)
  {
    v := 0;
    var p := 0;
    while IsDecimal(s[p])
      invariant p <= |str| && DigitsEnd(str, p) == DigitsEnd(str, 0)
      invariant v == Parse(str[..p], 10)
      decreases |str| - p
    {
      assert str[..p + 1][..p] == str[..p];
      PrefixBelow(str[..DigitsEnd(str, 0)], p + 1);
      assert str[..DigitsEnd(str, 0)][..p + 1] == str[..p + 1];
      v := v * 10 + (s[p] - 48);
      assert v <= INT_MAX;
      p := p + 1;
    }
  }

  /** No step overflows before the last. */
  lemma {:induction false} PrefixBelow(s: seq<Byte>, n: nat)
    requires n <= |s|
    ensures Parse(s[..n], 10) <= Parse(s, 10)
    decreases |s|
  {
    if n < |s| {
      PrefixBelow(s[..|s| - 1], n);
      assert s[..|s| - 1][..n] == s[..n];
    } else {
      assert s[..n] == s;
    }
  }

  lemma {:induction false} DigitsEndIs(s: seq<Byte>, i: nat, n: nat)
    requires i <= n <= |s| && (forall k :: i <= k < n ==> IsDecimal(s[k])) && (n < |s| ==> !IsDecimal(s[n]))
    ensures DigitsEnd(s, i) == n
    decreases n - i
  {
    if i < n {
      DigitsEndIs(s, i + 1, n);
    }
  }

  /** atoi_simple recovers every printed number, whatever other than a digit comes after it. */
  lemma AtoiUndoesFormat(v: nat, rest: seq<Char>)
    requires rest == [] || !(48 <= rest[0] <= 57)
    ensures var s := Numeral(v, 10, false) + rest;
      Parse(s[..DigitsEnd(s, 0)], 10) == v
  {
    var t := Numeral(v, 10, false);
    var s := t + rest;
    ParseUndoesFormat(v, 10, false);
    DecimalDigits(v);
    forall k | 0 <= k < |t| ensures IsDecimal(s[k]) {
      assert s[k] == t[k];
    }
    DigitsEndIs(s, 0, |t|);
    assert s[..|t|] == t;
  }

  lemma {:induction false} DecimalDigits(v: nat)
    ensures forall k :: 0 <= k < |Numeral(v, 10, false)| ==> IsDecimal(Numeral(v, 10, false)[k])
    decreases v
  {
    if 10 <= v {
      DecimalDigits(v / 10);
    }
  }
}
