/** The keyboard: a 256-slot ring of typed characters and the scancode decoder that feeds it. */
module Keyboard {
  import opened Bytes

  const RING: nat := 256

  // ---------------------------------------------------------------- the queue that the ring stands for

  /** A queue of at most 255 characters that drops its oldest one on overflow. */
  function Pushed(q: seq<byte>, c: byte): seq<byte> {
    if |q| < RING - 1 then q + [c] else if |q| == 0 then [c] else q[1..] + [c]
  }

  function PushedAll(q: seq<byte>, cs: seq<byte>): seq<byte>
    decreases cs
  {
    if |cs| == 0 then q else PushedAll(Pushed(q, cs[0]), cs[1..])
  }

  datatype Op = Push(c: byte) | Get

  predicate Allowed(q: seq<byte>, ops: seq<Op>)
    decreases ops
  {
    |ops| > 0 ==> (ops[0].Get? ==> |q| > 0) && Allowed(After(q, ops[0]), ops[1..])
  }

  function After(q: seq<byte>, op: Op): seq<byte> {
    match op
    case Push(c) => Pushed(q, c)
    case Get => if |q| == 0 then q else q[1..]
  }

  function Pending(q: seq<byte>, ops: seq<Op>): seq<byte>
    decreases ops
  {
    if |ops| == 0 then q else Pending(After(q, ops[0]), ops[1..])
  }

  function Reads(q: seq<byte>, ops: seq<Op>): seq<byte>
    requires Allowed(q, ops)
    decreases ops
  {
    if |ops| == 0 then []
    else (if ops[0].Get? then [q[0]] else []) + Reads(After(q, ops[0]), ops[1..])
  }

  function Pushes(ops: seq<Op>): seq<byte> {
    if |ops| == 0 then [] else (if ops[0].Push? then [ops[0].c] else []) + Pushes(ops[1..])
  }

  /** Some push of the run met a full ring. */
  predicate Overflows(q: seq<byte>, ops: seq<Op>)
    decreases ops
  {
    |ops| > 0 && ((ops[0].Push? && |q| >= 255) || Overflows(After(q, ops[0]), ops[1..]))
  }

  /** The last `n` characters of `s`. */
  function Newest(s: seq<byte>, n: nat): (r: seq<byte>)
    requires n <= |s|
    ensures |r| == n
  {
    s[|s| - n..]
  }

  lemma NewestTwice(s: seq<byte>, n: nat, m: nat)
    requires m <= n <= |s|
    ensures Newest(Newest(s, n), m) == Newest(s, m)
  {
  }

  /** What one operation contributes to the run. */
  lemma RunStep(q: seq<byte>, ops: seq<Op>)
    requires |ops| > 0 && Allowed(q, ops)
    ensures var q', rest := After(q, ops[0]), ops[1..];
      && (ops[0].Get? ==> |q| > 0) && Allowed(q', rest)
      && Reads(q, ops) == (if ops[0].Get? then [q[0]] else []) + Reads(q', rest)
      && Pending(q, ops) == Pending(q', rest)
      && (Overflows(q, ops) <==> (ops[0].Push? && |q| >= 255) || Overflows(q', rest))
  {
  }

  /** The pending characters are always the last ones pushed, and at most 255. */
  lemma {:induction false} PendingIsSuffix(q: seq<byte>, ops: seq<Op>)
    requires |q| <= 255 && Allowed(q, ops)
    ensures var p, all := Pending(q, ops), q + Pushes(ops);
      |p| <= 255 && |p| <= |all| && p == Newest(all, |p|)
    decreases ops
  {
    if |ops| > 0 {
      hide Pending, Pushes, After, Allowed, Reads, Overflows, Newest;
      var q', rest := After(q, ops[0]), ops[1..];
      RunStep(q, ops);
      AfterFits(q, ops[0]);
      PendingIsSuffix(q', rest);
      AllStep(q, ops);
      NewestTwice(q + Pushes(ops), |q' + Pushes(rest)|, |Pending(q', rest)|);
    }
  }

  lemma AfterFits(q: seq<byte>, op: Op)
    requires |q| < RING
    ensures |After(q, op)| < RING
  {
  }

  lemma AllStep(q: seq<byte>, ops: seq<Op>)
    requires |q| < RING && |ops| > 0
    ensures var all, rest := q + Pushes(ops), After(q, ops[0]) + Pushes(ops[1..]);
      |rest| <= |all| && rest == Newest(all, |rest|)
  {
    hide Pushes;
    var tail := Pushes(ops[1..]);
    match ops[0]
    case Push(c) => PushesStep(ops); assert q + Pushes(ops) == (q + [c]) + tail;
    case Get => PushesStep(ops);
  }

  lemma PushesStep(ops: seq<Op>)
    requires |ops| > 0
    ensures Pushes(ops) == (if ops[0].Push? then [ops[0].c] else []) + Pushes(ops[1..])
  {
  }

  /** Reads followed by pending is everything pushed, in order, exactly if no push met a full ring. */
  lemma {:induction false} FifoUnlessFull(q: seq<byte>, ops: seq<Op>)
    requires |q| <= 255 && Allowed(q, ops)
    ensures Reads(q, ops) + Pending(q, ops) == q + Pushes(ops) <==> !Overflows(q, ops)
    ensures |Reads(q, ops)| + |Pending(q, ops)| <= |q| + |Pushes(ops)|
    ensures Overflows(q, ops) ==> |Reads(q, ops)| + |Pending(q, ops)| < |q| + |Pushes(ops)|
    decreases ops
  {
    if |ops| == 0 {
      FifoNone(q, ops);
    } else {
      hide Reads, Pending, Pushes, Overflows, Allowed;
      var q', rest := After(q, ops[0]), ops[1..];
      RunStep(q, ops);
      PushesStep(ops);
      FifoUnlessFull(q', rest);
      match ops[0]
      case Push(c) => FifoPush(q, c, Reads(q', rest), Pending(q', rest), Pushes(rest), Overflows(q', rest));
      case Get => FifoGet(q, Reads(q', rest), Pending(q', rest), Pushes(rest));
    }
  }

  lemma FifoNone(q: seq<byte>, ops: seq<Op>)
    requires |ops| == 0 && Allowed(q, ops)
    ensures Reads(q, ops) + Pending(q, ops) == q + Pushes(ops) && !Overflows(q, ops)
  {
  }

  lemma FifoPush(q: seq<byte>, c: byte, r: seq<byte>, p: seq<byte>, all: seq<byte>, full: bool)
    requires |q| < RING
    requires r + p == Pushed(q, c) + all <==> !full
    requires |r| + |p| <= |Pushed(q, c)| + |all| && (full ==> |r| + |p| < |Pushed(q, c)| + |all|)
    ensures var all', full' := [c] + all, |q| >= RING - 1 || full;
      && (([] + r) + p == q + all' <==> !full')
      && |[] + r| + |p| <= |q| + |all'| && (full' ==> |[] + r| + |p| < |q| + |all'|)
  {
    assert [] + r == r;
    if |q| < RING - 1 {
      assert Pushed(q, c) + all == q + ([c] + all);
    } else {
      assert |r + p| < |q + ([c] + all)|;
    }
  }

  lemma FifoGet(q: seq<byte>, r: seq<byte>, p: seq<byte>, all: seq<byte>)
    requires |q| > 0
    ensures ([q[0]] + r) + p == q + ([] + all) <==> r + p == q[1..] + all
  {
    assert ([q[0]] + r) + p == [q[0]] + (r + p);
    assert q + ([] + all) == [q[0]] + (q[1..] + all);
    PrefixCancel(q[0], r + p, q[1..] + all);
  }

  lemma PrefixCancel(x: byte, a: seq<byte>, b: seq<byte>)
    ensures [x] + a == [x] + b <==> a == b
  {
    assert ([x] + a)[1..] == a && ([x] + b)[1..] == b;
  }

  lemma {:induction false} PushedAllFits(q: seq<byte>, cs: seq<byte>)
    requires |q| + |cs| < RING
    ensures PushedAll(q, cs) == q + cs
    decreases cs
  {
    if |cs| > 0 {
      PushedAllFits(q + [cs[0]], cs[1..]);
      assert (q + [cs[0]]) + cs[1..] == q + cs;
    } else {
      assert q + cs == q;
    }
  }

  lemma PushedAllStep(q: seq<byte>, cs: seq<byte>, i: nat)
    requires i < |cs|
    ensures PushedAll(q, cs[i..]) == PushedAll(Pushed(q, cs[i]), cs[i + 1..])
  {
    hide Pushed;
    assert cs[i..][0] == cs[i] && cs[i..][1..] == cs[i + 1..];
  }

  lemma PushedAllNone(q: seq<byte>, cs: seq<byte>)
    requires |cs| == 0
    ensures PushedAll(q, cs) == q
  {
  }

  lemma {:induction false} PushedAllLength(q: seq<byte>, cs: seq<byte>)
    requires |q| < RING
    ensures |PushedAll(q, cs)| == if |q| + |cs| < RING then |q| + |cs| else RING - 1
    decreases cs
  {
    if |cs| > 0 {
      PushedAllLength(Pushed(q, cs[0]), cs[1..]);
    }
  }

  /** What an interrupted read leaves is what an uninterrupted one would, exactly if no push met a full ring. */
  lemma InterruptedRead(q: seq<byte>, cs: seq<byte>)
    requires 0 < |q| <= 255
    ensures |PushedAll(q, cs)| > 0
    ensures PushedAll(q, cs)[1..] == PushedAll(q[1..], cs) <==> |q| + |cs| <= 255
    ensures |q| + |cs| <= 255 ==> PushedAll(q, cs)[1..] == q[1..] + cs
    ensures |q| + |cs| > 255 ==> |PushedAll(q, cs)| == 255
  {
    hide PushedAll, Pushed;
    PushedAllLength(q, cs);
    PushedAllLength(q[1..], cs);
    if |q| + |cs| < RING {
      ReadFits(q, cs);
    }
  }

  lemma ReadFits(q: seq<byte>, cs: seq<byte>)
    requires 0 < |q| && |q| + |cs| < RING
    ensures |PushedAll(q, cs)| > 0
    ensures PushedAll(q, cs)[1..] == PushedAll(q[1..], cs) == q[1..] + cs
  {
    hide PushedAll, Pushed;
    PushedAllFits(q, cs);
    PushedAllFits(q[1..], cs);
    TailConcat(q, cs);
  }

  lemma TailConcat(q: seq<byte>, cs: seq<byte>)
    requires |q| > 0
    ensures (q + cs)[1..] == q[1..] + cs
  {
  }

  /** Pushes keep the newest 255 of what was pending and what came. */
  lemma {:induction false} PushedAllNewest(q: seq<byte>, cs: seq<byte>)
    requires |q| < RING
    ensures PushedAll(q, cs) == Newest(q + cs, if |q| + |cs| <= 255 then |q| + |cs| else 255)
    decreases cs
  {
    hide PushedAll, Pushed, Newest;
    if |cs| == 0 {
      PushedAllNone(q, cs);
      AllNewest(q, cs);
    } else {
      var q', rest := Pushed(q, cs[0]), cs[1..];
      assert cs[0..] == cs;
      PushedAllStep(q, cs, 0);
      PushedOnto(q, cs);
      PushedAllNewest(q', rest);
      NewestTwice(q + cs, |q' + rest|, |PushedAll(q', rest)|);
    }
  }

  lemma AllNewest(q: seq<byte>, cs: seq<byte>)
    requires |cs| == 0
    ensures q == Newest(q + cs, |q|)
  {
  }

  lemma PushedOnto(q: seq<byte>, cs: seq<byte>)
    requires |q| < RING && |cs| > 0
    ensures var all, rest := q + cs, Pushed(q, cs[0]) + cs[1..];
      && |Pushed(q, cs[0])| < RING
      && |rest| == (if |q| < RING - 1 then |all| else |all| - 1) && rest == Newest(all, |rest|)
  {
    assert q + cs == (q + [cs[0]]) + cs[1..];
  }

  /** How many of `t` characters are left behind a tail that was stored too late. */
  function LeftBehind(t: nat): (n: nat)
    requires t > 0
    ensures n < t && n < RING
  {
    (t - 1) % 256
  }

  /**
   What a read leaves that is interrupted between the load of the tail and its store is what an uninterrupted one
   leaves, exactly if everything fits or the pushes have gone full turns.
   */
  lemma StaleTail(q: seq<byte>, cs: seq<byte>)
    requires 0 < |q| <= 255
    ensures var t := |q| + |cs|;
      Newest(q + cs, LeftBehind(t)) == PushedAll(q[1..], cs) <==> t < 256 || t % 256 == 0
  {
    hide PushedAll, Pushed, Newest, LeftBehind;
    var t := |q| + |cs|;
    FullTurns(t);
    TailNewest(q, cs);
  }

  lemma TailNewest(q: seq<byte>, cs: seq<byte>)
    requires 0 < |q| < RING
    ensures var t := |q| + |cs|;
      PushedAll(q[1..], cs) == Newest(q + cs, if t <= RING then t - 1 else RING - 1)
  {
    hide PushedAll, Pushed, Newest;
    PushedAllNewest(q[1..], cs);
    TailConcat(q, cs);
    NewestTail(q + cs, if |q| + |cs| <= RING then |q| + |cs| - 1 else RING - 1);
  }

  lemma NewestTail(s: seq<byte>, n: nat)
    requires n < |s|
    ensures Newest(s[1..], n) == Newest(s, n)
  {
  }

  lemma FullTurns(t: nat)
    requires t > 0
    ensures LeftBehind(t) == (if t <= RING then t - 1 else RING - 1) <==> t < RING || t % RING == 0
  {
  }

  // ---------------------------------------------------------------- the decoder

  /** The length of the two scancode tables. */
  const CODES: nat := 58

  /** `scancode_ascii`, row by row, as character codes. */
  function Plain(scancode: byte): byte
    requires scancode < CODES
  {
    if scancode < 15 then [0, 27, 49, 50, 51, 52, 53, 54, 55, 56, 57, 48, 45, 61, 8][scancode]
    else if scancode < 29 then [9, 113, 119, 101, 114, 116, 122, 117, 105, 111, 112, 91, 93, 10][scancode - 15]
    else if scancode < 42 then [0, 97, 115, 100, 102, 103, 104, 106, 107, 108, 59, 39, 96][scancode - 29]
    else if scancode < 55 then [0, 92, 121, 120, 99, 118, 98, 110, 109, 44, 46, 47, 0][scancode - 42]
    else [42, 0, 32][scancode - 55]
  }

  /** `scancode_ascii_shift`, row by row, as character codes. */
  function Shifted(scancode: byte): byte
    requires scancode < CODES
  {
    if scancode < 15 then [0, 27, 33, 64, 35, 36, 37, 94, 38, 42, 40, 41, 95, 43, 8][scancode]
    else if scancode < 29 then [9, 81, 87, 69, 82, 84, 90, 85, 73, 79, 80, 123, 125, 10][scancode - 15]
    else if scancode < 42 then [0, 65, 83, 68, 70, 71, 72, 74, 75, 76, 58, 34, 126][scancode - 29]
    else if scancode < 55 then [0, 124, 89, 88, 67, 86, 66, 78, 77, 60, 62, 63, 0][scancode - 42]
    else [42, 0, 32][scancode - 55]
  }

  predicate Lower(k: byte) { 97 <= k <= 122 }
  predicate Upper(k: byte) { 65 <= k <= 90 }

  function SwapCase(k: byte): byte {
    if Lower(k) then k - 32 else if Upper(k) then k + 32 else k
  }

  /** The character a scancode types under the given modifiers; 0 if it types none. */
  function KeyOf(shift: bool, caps: bool, scancode: byte): byte {
    if scancode >= CODES || scancode == 0x2A || scancode == 0x36 then 0
    else
      var k := if shift then Shifted(scancode) else Plain(scancode);
      if caps then SwapCase(k) else k
  }

  predicate IsShift(scancode: byte) {
    scancode == 0x2A || scancode == 0x36
  }

  function Modifiers(shift: bool, caps: bool, scancode: byte): (bool, bool) {
    if scancode >= 0x80 then (shift && !IsShift(scancode - 0x80), caps)
    else (shift || IsShift(scancode), caps != (scancode == 0x3A))
  }

  predicate Agree(plain: byte, shifted: byte) {
    && !Upper(plain) && !Lower(shifted)
    && (Lower(plain) <==> Upper(shifted))
    && (Lower(plain) ==> shifted == SwapCase(plain))
    && (plain == 0 <==> shifted == 0)
  }

  /** The two tables hold the two cases of the same letters, at the same places. */
  lemma TablesAgree(scancode: byte)
    requires scancode < CODES
    ensures Agree(Plain(scancode), Shifted(scancode))
  {
    hide Agree;
    if scancode < 15 {
      DigitRow(scancode);
    } else if scancode < 29 {
      TopRow(scancode);
    } else if scancode < 42 {
      HomeRow(scancode);
    } else {
      BottomRow(scancode);
    }
  }

  lemma DigitRow(scancode: byte)
    requires scancode < 15
    ensures Agree(Plain(scancode), Shifted(scancode))
  {
  }

  lemma TopRow(scancode: byte)
    requires 15 <= scancode < 29
    ensures Agree(Plain(scancode), Shifted(scancode))
  {
  }

  lemma HomeRow(scancode: byte)
    requires 29 <= scancode < 42
    ensures Agree(Plain(scancode), Shifted(scancode))
  {
  }

  lemma BottomRow(scancode: byte)
    requires 42 <= scancode < CODES
    ensures Agree(Plain(scancode), Shifted(scancode))
  {
  }

  /** The codes from `first` on type the characters of `text`, one each. */
  ghost predicate Types(shift: bool, first: nat, text: string)
    requires first + |text| <= 256
  {
    forall i :: first <= i < first + |text| ==> KeyOf(shift, false, i) == text[i - first] as int
  }

  lemma DigitKeys()
    ensures Types(false, 2, "1234567890-=") && Types(true, 2, "!@#$%^&*()_+")
  {
  }

  lemma TopKeys()
    ensures Types(false, 16, "qwertzuiop[]") && Types(true, 16, "QWERTZUIOP{}")
  {
  }

  lemma HomeKeys()
    ensures Types(false, 30, "asdfghjkl;'`") && Types(true, 30, "ASDFGHJKL:\"~")
  {
  }

  lemma BottomKeys()
    ensures Types(false, 43, "\\yxcvbnm,./") && Types(true, 43, "|YXCVBNM<>?")
  {
  }

  /** The four rows of the keyboard, without and with shift. */
  lemma Rows()
    ensures Types(false, 2, "1234567890-=") && Types(false, 16, "qwertzuiop[]")
    ensures Types(false, 30, "asdfghjkl;'`") && Types(false, 43, "\\yxcvbnm,./")
    ensures Types(true, 2, "!@#$%^&*()_+") && Types(true, 16, "QWERTZUIOP{}")
    ensures Types(true, 30, "ASDFGHJKL:\"~") && Types(true, 43, "|YXCVBNM<>?")
  {
    hide Types;
    DigitKeys();
    TopKeys();
    HomeKeys();
    BottomKeys();
  }

  /** The keys that shift does not change, and the codes that type nothing. */
  lemma OtherKeys(shift: bool, caps: bool, code: byte)
    ensures KeyOf(shift, caps, 1) == 27 && KeyOf(shift, caps, 14) == 8 && KeyOf(shift, caps, 15) == 9
    ensures KeyOf(shift, caps, 28) == 10 && KeyOf(shift, caps, 55) == 42 && KeyOf(shift, caps, 57) == 32
    ensures KeyOf(shift, caps, code) == 0 <==> Silent(code) || code >= 58
  {
    if code < CODES {
      TypingCodes(code);
    }
  }

  /** The codes below 58 that type nothing. */
  predicate Silent(code: byte) {
    code == 0 || code == 29 || code == 42 || code == 54 || code == 56
  }

  lemma TypingCodes(code: byte)
    requires code < CODES
    ensures Plain(code) == 0 <==> Silent(code)
    ensures Shifted(code) == 0 <==> Silent(code)
  {
    hide Plain, Shifted, Silent;
    if code < 29 {
      LowCodes(code);
    } else {
      HighCodes(code);
    }
  }

  lemma LowCodes(code: byte)
    requires code < 29
    ensures Plain(code) == 0 <==> Silent(code)
    ensures Shifted(code) == 0 <==> Silent(code)
  {
  }

  lemma HighCodes(code: byte)
    requires 29 <= code < CODES
    ensures Plain(code) == 0 <==> Silent(code)
    ensures Shifted(code) == 0 <==> Silent(code)
  {
  }

  /** Letters are upper case exactly if one of shift and caps lock is on; other keys ignore caps lock. */
  lemma LetterCase(shift: bool, caps: bool, scancode: byte)
    ensures var k := KeyOf(shift, caps, scancode);
      && (Upper(k) ==> shift != caps) && (Lower(k) ==> shift == caps)
      && (Upper(k) || Lower(k) ==> KeyOf(!shift, !caps, scancode) == k && KeyOf(!shift, caps, scancode) == SwapCase(k))
      && (!Upper(k) && !Lower(k) ==> KeyOf(shift, !caps, scancode) == k)
      && (k == 0 <==> KeyOf(!shift, caps, scancode) == 0)
  {
    if scancode < CODES {
      TablesAgree(scancode);
    }
  }

  function ModifiersAfter(shift: bool, caps: bool, codes: seq<byte>): (bool, bool) {
    if |codes| == 0 then (shift, caps)
    else
      var m := ModifiersAfter(shift, caps, codes[..|codes| - 1]);
      Modifiers(m.0, m.1, codes[|codes| - 1])
  }

  function CapsPresses(codes: seq<byte>): nat {
    if |codes| == 0 then 0
    else CapsPresses(codes[..|codes| - 1]) + if codes[|codes| - 1] == 0x3A then 1 else 0
  }

  /** A press or a release of a shift key. */
  predicate ShiftEvent(code: byte) {
    code == 0x2A || code == 0x36 || code == 0xAA || code == 0xB6
  }

  /** The last shift event is the press at place `i`. */
  predicate HeldSince(codes: seq<byte>, i: nat) {
    i < |codes| && (codes[i] == 0x2A || codes[i] == 0x36) && forall j :: i < j < |codes| ==> !ShiftEvent(codes[j])
  }

  lemma HeldExtend(codes: seq<byte>, i: nat)
    requires |codes| > 0 && i < |codes| - 1
    ensures HeldSince(codes, i) <==> HeldSince(codes[..|codes| - 1], i) && !ShiftEvent(codes[|codes| - 1])
  {
    var init := codes[..|codes| - 1];
    assert forall j :: 0 <= j < |init| ==> init[j] == codes[j];
  }

  /** Caps lock is the parity of its presses; shift is on exactly if the last shift event was a press. */
  lemma {:induction false} ModifierHistory(codes: seq<byte>)
    ensures var (shift, caps) := ModifiersAfter(false, false, codes);
      && caps == (CapsPresses(codes) % 2 == 1)
      && (shift <==> exists i: nat :: HeldSince(codes, i))
  {
    if |codes| > 0 {
      var init, last := codes[..|codes| - 1], codes[|codes| - 1];
      ModifierHistory(init);
      forall i: nat | i < |codes| - 1
        ensures HeldSince(codes, i) <==> HeldSince(init, i) && !ShiftEvent(last)
      {
        HeldExtend(codes, i);
      }
      assert HeldSince(codes, |codes| - 1) <==> last == 0x2A || last == 0x36;
      if i: nat :| HeldSince(init, i) {
        assert HeldSince(codes, i) <==> !ShiftEvent(last);
      }
    }
  }

  // ---------------------------------------------------------------- the ring

  function Next(i: nat): (r: nat)
    requires i < RING
    ensures r < RING && r == if i == RING - 1 then 0 else i + 1
  {
    (i + 1) % RING
  }

  /** How far the tail is behind the head. */
  function Gap(head: nat, tail: nat): (d: nat)
    requires head < RING && tail < RING
    ensures d < RING
  {
    if tail <= head then head - tail else head + RING - tail
  }

  /** The slot `i` places ahead. */
  function Ahead(head: nat, i: nat): (r: nat)
    ensures r < RING
  {
    (head + i) % RING
  }

  lemma HeadMoves(head: nat, i: nat)
    requires head < RING
    ensures Ahead(head, 0) == head && Next(Ahead(head, i)) == Ahead(head, i + 1)
  {
  }

  /** After `i` pushes the head has moved on by `i`, and meets the place of the old tail once the ring is full. */
  lemma HeadMeets(head: nat, tail: nat, i: nat)
    requires head < RING && tail < RING && Gap(head, tail) + i < RING
    ensures Gap(Ahead(head, i), tail) == Gap(head, tail) + i
  {
  }

  /** The distance left by a tail that is one further, after `n` pushes. */
  lemma StaleGap(head: nat, tail: nat, n: nat)
    requires head < RING && tail < RING && head != tail
    ensures Gap(Ahead(head, n), Next(tail)) == LeftBehind(Gap(head, tail) + n)
  {
  }

  function Contents(ring: seq<byte>, head: nat, tail: nat): (q: seq<byte>)
    requires |ring| == RING && head < RING && tail < RING
    ensures |q| == Gap(head, tail)
  {
    if tail <= head then ring[tail..head] else ring[tail..] + ring[..head]
  }

  lemma OldestAtTail(ring: seq<byte>, head: nat, tail: nat)
    requires |ring| == RING && head < RING && tail < RING && |Contents(ring, head, tail)| > 0
    ensures Contents(ring, head, tail)[0] == ring[tail] && head != tail
  {
  }

  /** Character `k` of the contents is in the `k`-th slot behind the tail. */
  lemma ContentsAt(ring: seq<byte>, head: nat, tail: nat, k: nat)
    requires |ring| == RING && head < RING && tail < RING && k < Gap(head, tail)
    ensures Contents(ring, head, tail)[k] == ring[if tail + k < RING then tail + k else tail + k - RING]
  {
  }

  /** A character stored at the head is appended. */
  lemma Appended(ring: seq<byte>, head: nat, tail: nat, c: byte, k: nat)
    requires |ring| == RING && head < RING && tail < RING && Next(head) != tail && k <= Gap(head, tail)
    ensures Gap(Next(head), tail) == Gap(head, tail) + 1
    ensures Contents(ring[head := c], Next(head), tail)[k]
         == if k < Gap(head, tail) then Contents(ring, head, tail)[k] else c
  {
    hide Contents;
    ContentsAt(ring[head := c], Next(head), tail, k);
    if k < Gap(head, tail) {
      ContentsAt(ring, head, tail, k);
    }
  }

  /** On a full ring the store takes the place before the tail, and the next tail drops the oldest. */
  lemma Replaced(ring: seq<byte>, head: nat, tail: nat, c: byte, k: nat)
    requires |ring| == RING && head < RING && tail < RING && Next(head) == tail && k < RING - 1
    ensures Gap(head, tail) == RING - 1 == Gap(tail, Next(tail))
    ensures Contents(ring[head := c], tail, Next(tail))[k]
         == if k + 1 < RING - 1 then Contents(ring, head, tail)[k + 1] else c
  {
    hide Contents;
    ContentsAt(ring[head := c], tail, Next(tail), k);
    if k + 1 < RING - 1 {
      ContentsAt(ring, head, tail, k + 1);
    }
  }

  lemma PushedRing(ring: seq<byte>, head: nat, tail: nat, c: byte)
    requires |ring| == RING && head < RING && tail < RING
    ensures Contents(ring[head := c], Next(head), if Next(head) == tail then Next(tail) else tail)
         == Pushed(Contents(ring, head, tail), c)
  {
    hide Contents, Gap;
    var q, w := Contents(ring, head, tail), ring[head := c];
    if Next(head) == tail {
      Replaced(ring, head, tail, c, 0);
      forall k | 0 <= k < RING - 1
        ensures Contents(w, tail, Next(tail))[k] == Pushed(q, c)[k]
      {
        Replaced(ring, head, tail, c, k);
      }
    } else {
      Appended(ring, head, tail, c, 0);
      forall k | 0 <= k <= |q|
        ensures Contents(w, Next(head), tail)[k] == (q + [c])[k]
      {
        Appended(ring, head, tail, c, k);
      }
    }
  }

  lemma ReadRing(ring: seq<byte>, head: nat, tail: nat)
    requires |ring| == RING && head < RING && tail < RING && |Contents(ring, head, tail)| > 0
    ensures Contents(ring, head, Next(tail)) == Contents(ring, head, tail)[1..]
  {
  }

  /** The contents end at the head, so a nearer tail gives the newest of what a farther one gives. */
  lemma NearerTail(ring: seq<byte>, head: nat, far: nat, near: nat)
    requires |ring| == RING && head < RING && far < RING && near < RING
    requires |Contents(ring, head, near)| <= |Contents(ring, head, far)|
    ensures Contents(ring, head, near) == Newest(Contents(ring, head, far), |Contents(ring, head, near)|)
  {
  }

  class Ring {
    const keycache: array<byte>
    var head: nat
    var tail: nat
    var shift: bool
    var caps: bool

    ghost predicate Valid()
      reads this, keycache
    {
      keycache.Length == RING && head < RING && tail < RING
    }

    ghost function Queue(): seq<byte>
      requires Valid()
      reads this, keycache
    {
      Contents(keycache[..], head, tail)
    }

    constructor ()
      ensures Valid() && Queue() == [] && !shift && !caps && fresh(keycache) && keycache.Length == 256
    {
      keycache := new byte[RING](_ => 0);
      head, tail, shift, caps := 0, 0, false, false;
    }

    method BufferPush(c: byte)
      requires Valid()
      modifies keycache, `head, `tail
      ensures Valid() && Queue() == Pushed(old(Queue()), c)
      ensures head == Next(old(head)) && tail == if head == old(tail) then Next(old(tail)) else old(tail)
    {
      hide Contents, Pushed;
      PushedRing(keycache[..], head, tail, c);
      ghost var was := keycache[..];
      keycache[head] := c;
      assert keycache[..] == was[head := c];
      head := Next(head);
      if head == tail {
        tail := Next(tail);
      }
    }

    method HasKey() returns (r: bool)
      requires Valid()
      ensures r <==> |Queue()| > 0
    {
      r := tail != head;
    }

    /** Reads a character; the wait for one is the precondition. */
    method GetKey() returns (c: byte)
      requires Valid() && |Queue()| > 0
      modifies `tail
      ensures Valid() && c == old(Queue())[0] && Queue() == old(Queue())[1..]
    {
      c := keycache[tail];
      tail := Next(tail);
    }

    /** The characters `cs` arrive one after the other. */
    method Arrive(cs: seq<byte>)
      requires Valid()
      modifies keycache, `head, `tail
      ensures Valid() && Queue() == PushedAll(old(Queue()), cs)
      ensures head == Ahead(old(head), |cs|)
      ensures tail == if |old(Queue())| + |cs| < RING then old(tail) else Next(head)
    {
      hide Pushed, PushedAll, Contents, Ahead;
      ghost var q := Queue();
      assert cs[0..] == cs;
      HeadMoves(head, 0);
      for i := 0 to |cs|
        invariant Valid() && PushedAll(Queue(), cs[i..]) == PushedAll(q, cs)
        invariant head == Ahead(old(head), i)
        invariant tail == if |q| + i < RING then old(tail) else Next(head)
      {
        PushedAllStep(Queue(), cs, i);
        HeadMoves(old(head), i);
        if |q| + i < RING {
          HeadMeets(old(head), old(tail), i);
        }
        BufferPush(cs[i]);
      }
      PushedAllNone(Queue(), cs[|cs|..]);
    }

    /** A read during which the interrupt handler pushes `cs` between the load and the tail update. */
    method GetKeyInterrupted(cs: seq<byte>) returns (c: byte)
      requires Valid() && |Queue()| > 0
      modifies keycache, `head, `tail
      ensures Valid() && c == old(Queue())[0]
      ensures |old(Queue())| + |cs| <= 255 <==> Queue() == PushedAll(old(Queue())[1..], cs)
      ensures |old(Queue())| + |cs| <= 255 ==> Queue() == old(Queue())[1..] + cs
      ensures |old(Queue())| + |cs| > 255 ==> |Queue()| == 254
    {
      hide Pushed, PushedAll, Contents;
      ghost var q := Queue();
      OldestAtTail(keycache[..], head, tail);
      c := keycache[tail];
      Arrive(cs);
      InterruptedRead(q, cs);
      ReadRing(keycache[..], head, tail);
      tail := Next(tail);
    }

    /** A read during which `cs` arrive inside the tail update, after its load and before its store. */
    method GetKeyStale(cs: seq<byte>) returns (c: byte)
      requires Valid() && |Queue()| > 0
      modifies keycache, `head, `tail
      ensures Valid() && c == old(Queue())[0]
      ensures var t := |old(Queue())| + |cs|;
        && Queue() == Newest(old(Queue()) + cs, LeftBehind(t))
        && (Queue() == PushedAll(old(Queue())[1..], cs) <==> t < 256 || t % 256 == 0)
    {
      hide Pushed, PushedAll, Contents, Newest, LeftBehind, Gap, Ahead;
      ghost var q := Queue();
      OldestAtTail(keycache[..], head, tail);
      c := keycache[tail];
      var loaded := tail;
      Arrive(cs);
      PushedAllNewest(q, cs);
      StaleGap(old(head), loaded, |cs|);
      NearerTail(keycache[..], head, tail, Next(loaded));
      NewestTwice(q + cs, |Queue()|, LeftBehind(|q| + |cs|));
      StaleTail(q, cs);
      tail := Next(loaded);
    }

    /** The interrupt handler, for the byte read from port 0x60. */
    method Handler(scancode: byte)
      requires Valid()
      modifies keycache, `head, `tail, `shift, `caps
      ensures Valid()
      ensures (shift, caps) == Modifiers(old(shift), old(caps), scancode)
      ensures Queue() == var k := KeyOf(old(shift), old(caps), scancode);
                         if k == 0 then old(Queue()) else Pushed(old(Queue()), k)
    {
      hide Plain, Shifted, Contents, Pushed;
      if scancode >= 0x80 {
        var released := scancode - 0x80;
        if released == 0x2A || released == 0x36 {
          shift := false;
        }
        return;
      }
      if scancode == 0x2A || scancode == 0x36 {
        shift := true;
        return;
      }
      if scancode == 0x3A {
        caps := !caps;
        return;
      }
      if scancode >= CODES {
        return;
      }
      var key := if shift then Shifted(scancode) else Plain(scancode);
      if key == 0 {
        return;
      }
      if caps {
        if 97 <= key <= 122 {
          key := key - 32;
        } else if 65 <= key <= 90 {
          key := key + 32;
        }
      }
      BufferPush(key);
    }
  }
}
