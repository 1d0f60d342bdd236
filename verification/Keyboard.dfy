/** drivers/keyboard.c: scancode decoding, the ring buffer it fills from the interrupt, and
    the reader that drains it while interrupts keep coming. */
module Keyboard {
  import opened Machine

  const BUF_SIZE: nat := 256

  // ---- The ring as a queue ---------------------------------------------------------

  datatype Ring = Ring(buf: seq<Byte>, head: nat, tail: nat)

  ghost predicate RingOK(r: Ring) {
    |r.buf| == BUF_SIZE && r.head < BUF_SIZE && r.tail < BUF_SIZE
  }

  /** (i + 1) & (BUF_SIZE - 1), for an index in range. */
  function Next(i: nat): nat {
    if i + 1 == BUF_SIZE then 0 else i + 1
  }

  function Count(r: Ring): nat
    requires r.head < BUF_SIZE && r.tail < BUF_SIZE
  {
    if r.tail <= r.head then r.head - r.tail else r.head + BUF_SIZE - r.tail
  }

  /** Where the k-th waiting byte lies. */
  function Slot(r: Ring, k: nat): nat
    requires r.tail < BUF_SIZE && k < BUF_SIZE
  {
    if r.tail + k < BUF_SIZE then r.tail + k else r.tail + k - BUF_SIZE
  }

  /** The bytes from tail up to head, in order. */
  ghost function Queue(r: Ring): (q: seq<Byte>)
    requires RingOK(r)
  {
    seq(Count(r), k requires 0 <= k < Count(r) => r.buf[Slot(r, k)])
  }

  /** Slot `i` holds a byte that has not been read. */
  predicate Waiting(r: Ring, i: nat) {
    if r.tail <= r.head then r.tail <= i < r.head else r.tail <= i || i < r.head
  }

  /** push: a key is dropped when the ring is full. */
  function PushRing(r: Ring, c: Byte): Ring
    requires RingOK(r)
  {
    if Next(r.head) == r.tail then r else Ring(r.buf[r.head := c], Next(r.head), r.tail)
  }

  /** A push appends to the queue, or is dropped; it is dropped exactly when 255 bytes wait.
      No slot that waits to be read is rewritten. */
  lemma PushQueue(r: Ring, c: Byte)
    requires RingOK(r)
    ensures RingOK(PushRing(r, c)) && PushRing(r, c).tail == r.tail
    ensures Next(r.head) == r.tail <==> |Queue(r)| == 255
    ensures Queue(PushRing(r, c)) == if |Queue(r)| == 255 then Queue(r) else Queue(r) + [c]
    ensures forall i :: 0 <= i < BUF_SIZE && Waiting(r, i) ==> PushRing(r, c).buf[i] == r.buf[i]
  {
    var r' := PushRing(r, c);
    if Next(r.head) != r.tail {
      assert Count(r') == Count(r) + 1;
      forall k | 0 <= k < Count(r') ensures r'.buf[Slot(r', k)] == (Queue(r) + [c])[k] {
      }
      assert Queue(r') == Queue(r) + [c];
    }
  }

  /** Moving the tail past a byte removes it from the front of the queue. */
  lemma PopQueue(r: Ring)
    requires RingOK(r) && r.head != r.tail
    ensures |Queue(r)| != 0 && Queue(r)[0] == r.buf[r.tail]
    ensures RingOK(r.(tail := Next(r.tail))) && Queue(r.(tail := Next(r.tail))) == Queue(r)[1..]
  {
    var r' := r.(tail := Next(r.tail));
    assert Count(r') == Count(r) - 1;
    forall k | 0 <= k < Count(r') ensures r'.buf[Slot(r', k)] == Queue(r)[k + 1] {
    }
    assert Queue(r') == Queue(r)[1..];
  }

  // ---- The interrupted reader --------------------------------------------------------

  /** Where keyboard_read has got to: about to test, past the test, or holding the slot's byte. */
  datatype Pc = Testing | Loading | Advancing(c: Byte)

  /** The ring, the reader, and the histories of accepted and of returned bytes. */
  datatype State = State(ring: Ring, pc: Pc, accepted: seq<Byte>, returned: seq<Byte>)

  datatype Event = Interrupt(c: Byte) | Reader

  /** An interrupt runs to completion; the reader takes one of its three steps. */
  ghost function Step(s: State, e: Event): State
    requires RingOK(s.ring)
  {
    match e
    case Interrupt(c) =>
      s.(ring := PushRing(s.ring, c),
         accepted := if Next(s.ring.head) == s.ring.tail then s.accepted else s.accepted + [c])
    case Reader =>
      match s.pc
      case Testing => s.(pc := if s.ring.head == s.ring.tail then Testing else Loading)
      case Loading => s.(pc := Advancing(s.ring.buf[s.ring.tail]))
      case Advancing(c) => s.(ring := s.ring.(tail := Next(s.ring.tail)), pc := Testing, returned := s.returned + [c])
  }

  ghost predicate Inv(s: State) {
    && RingOK(s.ring)
    && s.accepted == s.returned + Queue(s.ring)
    && (!s.pc.Testing? ==> s.ring.head != s.ring.tail)
    && (s.pc.Advancing? ==> s.pc.c == s.ring.buf[s.ring.tail])
  }

  /** Whatever the reader is in the middle of, an interrupt appends its byte or drops it. */
  lemma InterruptInv(s: State, c: Byte)
    requires Inv(s)
    ensures Inv(Step(s, Interrupt(c)))
    ensures Step(s, Interrupt(c)).accepted == if |Queue(s.ring)| == 255 then s.accepted else s.accepted + [c]
  {
    PushQueue(s.ring, c);
    var s' := Step(s, Interrupt(c));
    assert s'.accepted == s.returned + Queue(s'.ring);
    if s.ring.head != s.ring.tail {
      assert Waiting(s.ring, s.ring.tail);
    }
  }

  lemma ReaderInv(s: State)
    requires Inv(s)
    ensures Inv(Step(s, Reader))
  {
    if s.pc.Advancing? {
      PopQueue(s.ring);
      assert s.returned + Queue(s.ring) == (s.returned + [s.pc.c]) + Queue(s.ring)[1..];
    }
  }

  ghost function Run(s: State, es: seq<Event>): State
    requires Inv(s)
    decreases |es|
  {
    if es == [] then s
    else
      StepInv(s, es[0]);
      Run(Step(s, es[0]), es[1..])
  }

  lemma StepInv(s: State, e: Event)
    requires Inv(s)
    ensures Inv(Step(s, e))
  {
    match e
    case Interrupt(c) => InterruptInv(s, c);
    case Reader => ReaderInv(s);
  }

  /** Three reader steps with nothing in between are one call of keyboard_read. */
  lemma ReadAlone(s: State)
    requires Inv(s) && s.pc.Testing? && Queue(s.ring) != []
    ensures var s' := Step(Step(Step(s, Reader), Reader), Reader);
      && s'.pc.Testing? && s'.returned == s.returned + [Queue(s.ring)[0]]
      && Queue(s'.ring) == Queue(s.ring)[1..] && s'.accepted == s.accepted
  {
    PopQueue(s.ring);
  }

  function Boot(buf: seq<Byte>): State {
    State(Ring(buf, 0, 0), Testing, [], [])
  }

  /** Whichever steps the interrupts fall between, what was returned followed by what is still
      queued is what was accepted. */
  lemma {:induction false} RunInv(s: State, es: seq<Event>)
    requires Inv(s)
    ensures Inv(Run(s, es))
    ensures Run(s, es).returned + Queue(Run(s, es).ring) == Run(s, es).accepted
    decreases |es|
  {
    if es != [] {
      StepInv(s, es[0]);
      RunInv(Step(s, es[0]), es[1..]);
    }
  }

  lemma BootInv(buf: seq<Byte>)
    requires |buf| == BUF_SIZE
    ensures Inv(Boot(buf)) && Queue(Boot(buf).ring) == []
  {
  }

  // ---- Scancodes -----------------------------------------------------------------------

  const KEY_UP: Byte := 0x80
  const KEY_DOWN: Byte := 0x81

  /** map_lower, indexed by scancode. */
  function Lower(sc: Byte): Byte {
    match sc
    case 1 => 27 case 2 => 49 case 3 => 50 case 4 => 51 case 5 => 52 case 6 => 53 case 7 => 54 case 8 => 55
    case 9 => 56 case 10 => 57 case 11 => 48 case 12 => 45 case 13 => 61 case 14 => 8 case 15 => 9
    case 16 => 113 case 17 => 119 case 18 => 101 case 19 => 114 case 20 => 116 case 21 => 121 case 22 => 117
    case 23 => 105 case 24 => 111 case 25 => 112 case 26 => 91 case 27 => 93 case 28 => 10 case 30 => 97
    case 31 => 115 case 32 => 100 case 33 => 102 case 34 => 103 case 35 => 104 case 36 => 106 case 37 => 107
    case 38 => 108 case 39 => 59 case 40 => 39 case 41 => 96 case 43 => 92 case 44 => 122 case 45 => 120
    case 46 => 99 case 47 => 118 case 48 => 98 case 49 => 110 case 50 => 109 case 51 => 44 case 52 => 46
    case 53 => 47 case 55 => 42 case 57 => 32
    case _ => 0
  }

  /** map_upper. */
  function Upper(sc: Byte): Byte {
    match sc
    case 1 => 27 case 2 => 33 case 3 => 64 case 4 => 35 case 5 => 36 case 6 => 37 case 7 => 94 case 8 => 38
    case 9 => 42 case 10 => 40 case 11 => 41 case 12 => 95 case 13 => 43 case 14 => 8 case 15 => 9
    case 16 => 81 case 17 => 87 case 18 => 69 case 19 => 82 case 20 => 84 case 21 => 89 case 22 => 85
    case 23 => 73 case 24 => 79 case 25 => 80 case 26 => 123 case 27 => 125 case 28 => 10 case 30 => 65
    case 31 => 83 case 32 => 68 case 33 => 70 case 34 => 71 case 35 => 72 case 36 => 74 case 37 => 75
    case 38 => 76 case 39 => 58 case 40 => 34 case 41 => 126 case 43 => 124 case 44 => 90 case 45 => 88
    case 46 => 67 case 47 => 86 case 48 => 66 case 49 => 78 case 50 => 77 case 51 => 60 case 52 => 62
    case 53 => 63 case 55 => 42 case 57 => 32
    case _ => 0
  }

  predicate IsLower(c: Byte) {
    97 <= c <= 122
  }

  predicate IsUpper(c: Byte) {
    65 <= c <= 90
  }

  datatype Mods = Mods(shift: bool, caps: bool, sawE0: bool)

  predicate IsShift(sc: Byte) {
    sc == 0x2A || sc == 0x36
  }

  /** The character a press of `sc` produces; 0 for none. */
  function Translate(m: Mods, sc: Byte): Byte {
    var c := if m.shift then Upper(sc) else Lower(sc);
    if m.caps && !m.shift && IsLower(c) then c - 97 + 65
    else if m.caps && m.shift && IsUpper(c) then c - 65 + 97
    else c
  }

  /** Which modifiers one scancode leaves behind. */
  function NextMods(m: Mods, sc: Byte): Mods {
    if sc == 0xE0 then m.(sawE0 := true)
    else if m.sawE0 then m.(sawE0 := false)
    else if sc >= 0x80 then (if IsShift(sc - 0x80) then m.(shift := false) else m)
    else if IsShift(sc) then m.(shift := true)
    else if sc == 0x3A then m.(caps := !m.caps)
    else m
  }

  /** The byte one scancode pushes; 0 for none. */
  function Typed(m: Mods, sc: Byte): Byte {
    if sc == 0xE0 then 0
    else if m.sawE0 then (if sc == 0x48 then KEY_UP else if sc == 0x50 then KEY_DOWN else 0)
    else if sc >= 0x80 || IsShift(sc) || sc == 0x3A then 0
    else Translate(m, sc)
  }

  /** A letter comes out upper case exactly when one of Shift and Caps Lock is on, and Caps Lock
      changes nothing else. */
  lemma LetterCase(m: Mods, sc: Byte)
    ensures IsLower(Lower(sc)) <==> IsUpper(Upper(sc))
    ensures IsLower(Lower(sc)) ==> Upper(sc) == Lower(sc) - 32
    ensures Translate(m, sc) ==
      if IsLower(Lower(sc)) then (if m.shift != m.caps then Upper(sc) else Lower(sc))
      else if m.shift then Upper(sc) else Lower(sc)
  {
  }

  /** The modifiers after a whole history of scancodes. */
  function ModsAfter(h: seq<Byte>): Mods {
    if h == [] then Mods(false, false, false)
    else NextMods(ModsAfter(h[..|h| - 1]), h[|h| - 1])
  }

  /** The i-th scancode belongs to an extended sequence. */
  predicate Extended(h: seq<Byte>, i: nat)
    requires i < |h|
  {
    h[i] == 0xE0 || (0 < i && h[i - 1] == 0xE0)
  }

  predicate Pressed(h: seq<Byte>, i: nat)
    requires i < |h|
  {
    !Extended(h, i) && (h[i] == 0x2A || h[i] == 0x36)
  }

  predicate Released(h: seq<Byte>, i: nat)
    requires i < |h|
  {
    !Extended(h, i) && (h[i] == 0xAA || h[i] == 0xB6)
  }

  /** Some press of Shift has had no release since. */
  ghost predicate ShiftOn(h: seq<Byte>) {
    exists i :: 0 <= i < |h| && Pressed(h, i) && forall j :: i < j < |h| ==> !Released(h, j)
  }

  /** How often Caps Lock was pressed. */
  function CapsPresses(h: seq<Byte>): nat {
    if h == [] then 0
    else CapsPresses(h[..|h| - 1]) + if !Extended(h, |h| - 1) && h[|h| - 1] == 0x3A then 1 else 0
  }

  /** Shift is on exactly when some press of it has had no release since; Caps Lock follows the
      parity of its presses; and an extended sequence never touches either. */
  lemma {:induction false} ModsMeaning(h: seq<Byte>)
    ensures ModsAfter(h).sawE0 <==> h != [] && h[|h| - 1] == 0xE0
    ensures ModsAfter(h).caps <==> CapsPresses(h) % 2 == 1
    ensures ModsAfter(h).shift <==> ShiftOn(h)
  {
    if h != [] {
      var n := |h| - 1;
      var g := h[..n];
      ModsMeaning(g);
      forall i | 0 <= i < n ensures (Pressed(h, i) <==> Pressed(g, i)) && (Released(h, i) <==> Released(g, i)) {
      }
      if Pressed(h, n) {
        assert ModsAfter(h).shift;
      } else if Released(h, n) {
        assert !ModsAfter(h).shift;
      } else {
        assert ModsAfter(h).shift == ModsAfter(g).shift;
        if ModsAfter(g).shift {
          var i :| 0 <= i < |g| && Pressed(g, i) && forall j :: i < j < |g| ==> !Released(g, j);
          assert Pressed(h, i);
        } else {
          forall i | 0 <= i < |h| && Pressed(h, i) ensures exists j :: i < j < |h| && Released(h, j) {
            assert Pressed(g, i);
            var j :| i < j < |g| && Released(g, j);
            assert Released(h, j);
          }
        }
      }
    }
  }

  /** What a scancode types, from the history of all before it: behind 0xE0 the two arrows and
      nothing else; otherwise no release, no modifier and no prefix anything, a letter its upper case
      exactly when one of Shift and Caps Lock is on, and any other key what Shift makes of it. */
  lemma TypedMeaning(h: seq<Byte>, sc: Byte)
    ensures Typed(ModsAfter(h), sc) ==
      if h != [] && h[|h| - 1] == 0xE0 then (if sc == 0x48 then 0x80 else if sc == 0x50 then 0x81 else 0)
      else if sc >= 0x80 || sc == 0x2A || sc == 0x36 || sc == 0x3A then 0
      else if 97 <= Lower(sc) <= 122 then
        if ShiftOn(h) != (CapsPresses(h) % 2 == 1) then Lower(sc) - 32 else Lower(sc)
      else if ShiftOn(h) then Upper(sc)
      else Lower(sc)
  {
    ModsMeaning(h);
    LetterCase(ModsAfter(h), sc);
  }

  /** The keys from scancode `first` on carry these characters. */
  ghost predicate Row(first: nat, plain: string, shifted: string) {
    && |plain| == |shifted| && first + |plain| <= 0x100
    && forall k :: 0 <= k < |plain| ==>
      Lower(first + k) == plain[k] as int && Upper(first + k) == shifted[k] as int
  }

  /** The keyboard's rows, as they are printed on a US keyboard. */
  lemma UpperRows()
    ensures Row(2, "1234567890-=", "!@#$%^&*()_+")
    ensures Row(16, "qwertyuiop[]", "QWERTYUIOP{}")
  {
  }

  lemma LowerRows()
    ensures Row(30, "asdfghjkl;'`", "ASDFGHJKL:\"~")
    ensures Row(43, "\\zxcvbnm,./", "|ZXCVBNM<>?")
  {
  }

  /** The keys that Shift does not change, and those that type nothing. */
  lemma OtherKeys()
    ensures Row(1, "\U{1B}", "\U{1B}") && Row(14, "\U{08}\t", "\U{08}\t") && Row(28, "\n", "\n")
    ensures Row(55, "*", "*") && Row(57, " ", " ")
    ensures forall sc: Byte :: sc in {0, 29, 42, 54, 56} || 58 <= sc ==> Lower(sc) == 0 && Upper(sc) == 0
  {
  }

  // ---- The driver ------------------------------------------------------------------------

  class Driver {
    const buf: array<Byte>
    var head: nat
    var tail: nat
    var shift: bool
    var caps: bool
    var sawE0: bool
    /** Every scancode the interrupt handler has seen. */
    ghost var history: seq<Byte>

    ghost function R(): Ring
      reads this, buf
    {
      Ring(buf[..], head, tail)
    }

    ghost predicate Valid()
      reads this, buf
    {
      RingOK(R()) && Mods(shift, caps, sawE0) == ModsAfter(history)
    }

    constructor ()
      ensures Valid() && fresh(buf) && history == [] && Queue(R()) == []
    {
      buf := new Byte[BUF_SIZE](_ => 0);
      head, tail := 0, 0;
      shift, caps, sawE0 := false, false, false;
      history := [];
    }

    method Push(c: Byte)
      requires Valid()
      modifies this`head, buf
      ensures Valid() && R() == PushRing(old(R()), c)
    {
      var next := Next(head);
      if next != tail {
        buf[head] := c;
        head := next;
      }
    }

    /** keyboard_irq with scancode `sc` in the data port. */
    method Irq(sc: Byte)
      requires Valid()
      modifies this`head, this`shift, this`caps, this`sawE0, this`history, buf
      ensures Valid() && history == old(history) + [sc]
      ensures var c := Typed(ModsAfter(old(history)), sc);
        R() == if c == 0 then old(R()) else PushRing(old(R()), c)
    {
      history := history + [sc];
      assert history[..|history| - 1] == old(history);
      if sc == 0xE0 {
        sawE0 := true;
        return;
      }
      if sawE0 {
        sawE0 := false;
        if sc == 0x48 {
          Push(KEY_UP);
        } else if sc == 0x50 {
          Push(KEY_DOWN);
        }
        return;
      }
      if sc >= 0x80 {
        if IsShift(sc - 0x80) {
          shift := false;
        }
        return;
      }
      if IsShift(sc) {
        shift := true;
        return;
      }
      if sc == 0x3A {
        caps := !caps;
        return;
      }
      var c := if shift then Upper(sc) else Lower(sc);
      if caps && !shift && IsLower(c) {
        c := c - 97 + 65;
      } else if caps && shift && IsUpper(c) {
        c := c - 65 + 97;
      }
      if c != 0 {
        Push(c);
      }
    }

    /** keyboard_read, undisturbed: the oldest byte, or -1 when there is none. */
    method Read() returns (r: int)
      requires Valid()
      modifies this`tail
      ensures Valid()
      ensures old(Queue(R())) == [] ==> r == -1 && tail == old(tail)
      ensures old(Queue(R())) != [] ==> r == old(Queue(R())[0]) && Queue(R()) == old(Queue(R())[1..])
    {
      if head == tail {
        return -1;
      }
      PopQueue(R());
      r := buf[tail];
      tail := Next(tail);
    }
  }
}
