/** `printf` and `snprintf`: loops that emit whole runs of text, against a formatter that goes by character. */
module Formatting {
  import opened Bytes
  import opened Numbers
  import opened Terminal

  const INT_MAX: nat := 0x7FFF_FFFF
  const PERCENT: byte := 37
  const CHAR: byte := 99
  const STRING: byte := 115
  const HEX: byte := 120
  const DECIMAL: byte := 100

  // ---------------------------------------------------------------- the formatter

  datatype Arg = CharArg(c: byte) | StrArg(s: seq<byte>) | HexArg(u: nat) | IntArg(i: int)

  /** The letters after `%` that convert an argument; only `printf` knows numbers. */
  predicate IsConversion(k: byte, numbers: bool) {
    k == CHAR || k == STRING || (numbers && (k == HEX || k == DECIMAL))
  }

  /** The argument is of the type the conversion reads from the list. */
  predicate ArgFits(k: byte, a: Arg) {
    || (k == CHAR && a.CharArg?)
    || (k == STRING && a.StrArg?)
    || (k == HEX && a.HexArg? && a.u < U64)
    || (k == DECIMAL && a.IntArg? && INT64_MIN <= a.i <= INT64_MAX)
  }

  function ArgText(k: byte, a: Arg): seq<byte>
    requires ArgFits(k, a)
  {
    match a
    case CharArg(c) => [c]
    case StrArg(s) => s
    case HexArg(u) => Hex(u)
    case IntArg(i) => DecimalText(i)
  }

  /** The argument list serves every conversion of the format. */
  predicate ArgsFit(fmt: seq<byte>, args: seq<Arg>, numbers: bool)
    decreases fmt
  {
    if |fmt| == 0 then true
    else if fmt[0] != PERCENT then ArgsFit(fmt[1..], args, numbers)
    else if |fmt| == 1 then true
    else if fmt[1] == PERCENT then ArgsFit(fmt[2..], args, numbers)
    else if IsConversion(fmt[1], numbers) then
      |args| > 0 && ArgFits(fmt[1], args[0]) && ArgsFit(fmt[2..], args[1..], numbers)
    else true
  }

  /** The text of a format, one character or conversion at a time; an unknown conversion ends it verbatim. */
  function Format(fmt: seq<byte>, args: seq<Arg>, numbers: bool): seq<byte>
    requires ArgsFit(fmt, args, numbers)
    decreases fmt
  {
    if |fmt| == 0 then []
    else if fmt[0] != PERCENT then [fmt[0]] + Format(fmt[1..], args, numbers)
    else if |fmt| == 1 then fmt
    else if fmt[1] == PERCENT then [PERCENT] + Format(fmt[2..], args, numbers)
    else if IsConversion(fmt[1], numbers) then
      ArgText(fmt[1], args[0]) + Format(fmt[2..], args[1..], numbers)
    else fmt
  }

  // ---------------------------------------------------------------- what the text is

  /** The first percent sign of the format is at place `i`. */
  predicate FirstPercent(fmt: seq<byte>, i: nat) {
    i < |fmt| && fmt[i] == 37 && forall j :: 0 <= j < i ==> fmt[j] != 37
  }

  /**
   The text of a format: what precedes the first percent sign is copied; a doubled sign stands for one; `c` and `s`
   give their argument; `x` and `d`, where numbers are known, a numeral that reads back as it; anything else ends the
   text verbatim.
   */
  ghost predicate Rendered(fmt: seq<byte>, args: seq<Arg>, numbers: bool, text: seq<byte>) {
    && ((forall j :: 0 <= j < |fmt| ==> fmt[j] != 37) ==> text == fmt)
    && forall i: nat :: FirstPercent(fmt, i) ==> RenderedAt(fmt[..i], fmt[i + 1..], args, numbers, text)
  }

  /** `a`, then a percent sign, then `b`. */
  ghost predicate RenderedAt(a: seq<byte>, b: seq<byte>, args: seq<Arg>, numbers: bool, text: seq<byte>) {
    if |b| > 0 && b[0] == 37 then
      ArgsFit(b[1..], args, numbers) && text == a + [37] + Format(b[1..], args, numbers)
    else if |b| > 0 && (b[0] == 99 || b[0] == 115 || (numbers && (b[0] == 120 || b[0] == 100))) then
      && |args| > 0 && ArgsFit(b[1..], args[1..], numbers)
      && exists piece :: Converted(b[0], args[0], piece) && text == a + piece + Format(b[1..], args[1..], numbers)
    else text == a + [37] + b
  }

  /** What the conversions `c`, `s`, `x` and `d` make of an argument. */
  predicate Converted(k: byte, arg: Arg, piece: seq<byte>) {
    || (k == 99 && arg.CharArg? && piece == [arg.c])
    || (k == 115 && arg.StrArg? && piece == arg.s)
    || (k == 120 && arg.HexArg? && ShowsHex(piece, arg.u))
    || (k == 100 && arg.IntArg? && ShowsDecimal(piece, arg.i))
  }

  lemma ArgConverted(k: byte, arg: Arg)
    requires ArgFits(k, arg)
    ensures Converted(k, arg, ArgText(k, arg))
  {
    hide ShowsHex, ShowsDecimal;
    match arg
    case CharArg(_) =>
    case StrArg(_) =>
    case HexArg(u) => HexRoundTrip(u);
    case IntArg(i) => DecimalRoundTrip(i);
  }

  /** At a percent sign. */
  lemma FormatAt(b: seq<byte>, args: seq<Arg>, numbers: bool)
    requires ArgsFit([37] + b, args, numbers)
    ensures RenderedAt([], b, args, numbers, Format([37] + b, args, numbers))
  {
    var fmt := [37] + b;
    if |b| > 0 && b[0] == 37 {
      assert fmt[2..] == b[1..];
    } else if |b| > 0 && IsConversion(b[0], numbers) {
      assert fmt[2..] == b[1..];
      ArgConverted(b[0], args[0]);
      var piece := ArgText(b[0], args[0]);
      hide Converted;
      assert Format(fmt, args, numbers) == [] + piece + Format(b[1..], args[1..], numbers);
    }
  }

  /** Text without a percent sign in front is copied. */
  lemma RenderedAfter(a: seq<byte>, b: seq<byte>, args: seq<Arg>, numbers: bool, text: seq<byte>)
    requires RenderedAt([], b, args, numbers, text)
    ensures RenderedAt(a, b, args, numbers, a + text)
  {
    hide Format, ArgsFit, Converted;
    if |b| > 0 && b[0] == 37 {
      var rest := Format(b[1..], args, numbers);
      assert a + ([] + [37] + rest) == a + [37] + rest;
    } else if |b| > 0 && (b[0] == 99 || b[0] == 115 || (numbers && (b[0] == 120 || b[0] == 100))) {
      var rest := Format(b[1..], args[1..], numbers);
      var piece :| Converted(b[0], args[0], piece) && text == [] + piece + rest;
      assert a + ([] + piece + rest) == a + piece + rest;
    } else {
      assert a + ([] + [37] + b) == a + [37] + b;
    }
  }

  /** The formatter renders its format. */
  lemma FormatRenders(fmt: seq<byte>, args: seq<Arg>, numbers: bool)
    requires ArgsFit(fmt, args, numbers)
    ensures Rendered(fmt, args, numbers, Format(fmt, args, numbers))
  {
    hide Format, ArgsFit, RenderedAt;
    var text := Format(fmt, args, numbers);
    if forall j :: 0 <= j < |fmt| ==> fmt[j] != 37 {
      PlainRun(fmt, args, numbers, |fmt|);
      FormatNothing(fmt[|fmt|..], args);
      assert text == fmt;
    }
    forall i: nat | FirstPercent(fmt, i)
      ensures RenderedAt(fmt[..i], fmt[i + 1..], args, numbers, text)
    {
      var a, b := fmt[..i], fmt[i + 1..];
      PlainRun(fmt, args, numbers, i);
      assert fmt[i..] == [37] + b;
      FormatAt(b, args, numbers);
      RenderedAfter(a, b, args, numbers, Format([37] + b, args, numbers));
    }
  }

  // ---------------------------------------------------------------- where a loop stops

  /** What is left of a format and its arguments. */
  datatype Left = Left(fmt: seq<byte>, args: seq<Arg>)

  /** After `n` characters of the text, `left` is still to come. */
  ghost predicate Reaches(fmt: seq<byte>, args: seq<Arg>, numbers: bool, n: nat, left: Left) {
    && ArgsFit(fmt, args, numbers) && ArgsFit(left.fmt, left.args, numbers)
    && n <= |Format(fmt, args, numbers)|
    && Format(fmt, args, numbers) == Format(fmt, args, numbers)[..n] + Format(left.fmt, left.args, numbers)
  }

  lemma ReachesHere(fmt: seq<byte>, args: seq<Arg>, numbers: bool, n: nat, left: Left)
    requires ArgsFit(fmt, args, numbers) && ArgsFit(left.fmt, left.args, numbers) && n <= |Format(fmt, args, numbers)|
    requires Format(fmt, args, numbers) == Format(fmt, args, numbers)[..n] + Format(left.fmt, left.args, numbers)
    ensures Reaches(fmt, args, numbers, n, left)
  {
  }

  /**
   The next piece of `left` is `m` characters long: a conversion, an unknown one with all that follows, or text up to
   the next percent sign (not counting the first of two) or up to `cap` characters.
   */
  predicate PieceLength(left: Left, numbers: bool, cap: nat, m: nat) {
    var fmt, args := left.fmt, left.args;
    if |fmt| == 0 then false
    else if fmt[0] != 37 then RunLength(fmt, cap, m)
    else if |fmt| == 1 then m == 1
    else if fmt[1] == 37 then RunLength(fmt[1..], cap, m)
    else if fmt[1] == 99 then m == 1
    else if fmt[1] == 115 then |args| > 0 && args[0].StrArg? && m == |args[0].s|
    else if numbers && fmt[1] == 120 then |args| > 0 && args[0].HexArg? && m == |Hex(args[0].u)|
    else if numbers && fmt[1] == 100 then |args| > 0 && args[0].IntArg? && m == |DecimalText(args[0].i)|
    else m == |fmt|
  }

  /** The next piece is longer than `room`. */
  ghost predicate TooLong(left: Left, numbers: bool, cap: nat, room: nat) {
    exists m: nat :: PieceLength(left, numbers, cap, m) && m > room
  }

  lemma NextTooLong(left: Left, cap: nat, room: nat, m: nat)
    requires PieceLength(left, false, cap, m) && m > room
    ensures TooLong(left, false, cap, room)
  {
  }

  predicate RunLength(s: seq<byte>, cap: nat, m: nat) {
    && 1 <= m <= |s| && (forall i :: 1 <= i < m ==> s[i] != 37)
    && (m == |s| || s[m] == 37 || m >= cap)
  }

  // ---------------------------------------------------------------- runs

  /** No `%` in `s` from index `a` up to index `b`. */
  predicate NoPercent(s: seq<byte>, a: nat, b: nat) {
    b <= |s| && forall i :: a <= i < b ==> s[i] != PERCENT
  }

  lemma SliceShift(s: seq<byte>, n: nat)
    requires 0 < n <= |s|
    ensures s[1..][n - 1..] == s[n..]
    ensures s[..n] == [s[0]] + s[1..][..n - 1]
  {
  }

  lemma {:induction false} PlainRun(fmt: seq<byte>, args: seq<Arg>, numbers: bool, n: nat)
    requires NoPercent(fmt, 0, n) && ArgsFit(fmt, args, numbers)
    ensures ArgsFit(fmt[n..], args, numbers)
    ensures Format(fmt, args, numbers) == fmt[..n] + Format(fmt[n..], args, numbers)
    decreases n
  {
    if n == 0 {
      assert fmt[0..] == fmt;
    } else {
      var rest := fmt[1..];
      RunHead(fmt, args, numbers, fmt);
      hide Format, ArgsFit;
      PlainRun(rest, args, numbers, n - 1);
      SliceShift(fmt, n);
    }
  }

  /** The run of text at `start`: one character, whatever it is, and what follows up to the next `%`. */
  predicate IsRun(s: seq<byte>, n: nat) {
    0 < n && NoPercent(s, 1, n)
  }

  /** A run that begins with an ordinary character, or behind the first of two `%`, is a stretch of the text. */
  lemma RunText(fmt: seq<byte>, args: seq<Arg>, numbers: bool, start: seq<byte>, n: nat)
    requires |fmt| > 0 && ArgsFit(fmt, args, numbers) && IsRun(start, n)
    requires if fmt[0] != PERCENT then start == fmt else |fmt| > 1 && fmt[1] == PERCENT && start == fmt[1..]
    ensures ArgsFit(start[n..], args, numbers)
    ensures Format(fmt, args, numbers) == start[..n] + Format(start[n..], args, numbers)
  {
    hide Format, ArgsFit, IsRun;
    RunHead(fmt, args, numbers, start);
    RunTail(start, args, numbers, n);
  }

  lemma RunTail(start: seq<byte>, args: seq<Arg>, numbers: bool, n: nat)
    requires IsRun(start, n) && ArgsFit(start[1..], args, numbers)
    ensures ArgsFit(start[n..], args, numbers)
    ensures [start[0]] + Format(start[1..], args, numbers) == start[..n] + Format(start[n..], args, numbers)
  {
    hide Format, ArgsFit;
    var rest := start[1..];
    PlainRun(rest, args, numbers, n - 1);
    SliceShift(start, n);
    Assoc([start[0]], rest[..n - 1], Format(rest[n - 1..], args, numbers));
  }

  lemma Assoc(a: seq<byte>, b: seq<byte>, c: seq<byte>)
    ensures a + (b + c) == (a + b) + c
  {
  }

  lemma RunHead(fmt: seq<byte>, args: seq<Arg>, numbers: bool, start: seq<byte>)
    requires |fmt| > 0 && ArgsFit(fmt, args, numbers)
    requires if fmt[0] != PERCENT then start == fmt else |fmt| > 1 && fmt[1] == PERCENT && start == fmt[1..]
    ensures ArgsFit(start[1..], args, numbers)
    ensures Format(fmt, args, numbers) == [start[0]] + Format(start[1..], args, numbers)
  {
    if fmt[0] == PERCENT {
      assert start[1..] == fmt[2..];
    }
  }

  /** Counts the run at the head of `s`, at most `cap` characters (but at least one). */
  method CountRun(s: seq<byte>, cap: nat) returns (amount: nat)
    requires |s| > 0
    ensures IsRun(s, amount) && (amount <= cap || amount == 1)
    ensures amount < |s| && amount < cap ==> s[amount] == PERCENT
  {
    amount := 1;
    while amount < |s| && s[amount] != PERCENT && amount < cap
      invariant 1 <= amount && NoPercent(s, 1, amount)
      invariant amount <= cap || amount == 1
    {
      amount := amount + 1;
    }
  }

  // ---------------------------------------------------------------- snprintf

  method WriteToBuffer(data: seq<byte>, buffer: array<byte>, written: nat)
    requires written + |data| <= buffer.Length
    modifies buffer
    ensures buffer[..written + |data|] == old(buffer[..written]) + data
    ensures forall i :: written + |data| <= i < buffer.Length ==> buffer[i] == old(buffer[i])
  {
    for i := 0 to |data|
      invariant buffer[..written + i] == old(buffer[..written]) + data[..i]
      invariant forall j :: written + i <= j < buffer.Length ==> buffer[j] == old(buffer[j])
    {
      ghost var was := buffer[..written + i];
      buffer[i + written] := data[i];
      assert buffer[..written + i + 1] == was + [data[i]];
      assert data[..i + 1] == data[..i] + [data[i]];
    }
    assert data[..|data|] == data;
  }

  /** `shown` is the beginning of the text and `rest` what is still to come. */
  ghost predicate Continues(shown: seq<byte>, rest: seq<byte>, text: seq<byte>) {
    text == shown + rest
  }

  lemma ContinuesStart(none: seq<byte>, text: seq<byte>)
    requires |none| == 0
    ensures Continues(none, text, text)
  {
  }

  lemma ContinuesOn(shown: seq<byte>, piece: seq<byte>, rest: seq<byte>, text: seq<byte>)
    requires Continues(shown, piece + rest, text)
    ensures Continues(shown + piece, rest, text)
  {
    Assoc(shown, piece, rest);
  }

  lemma ContinuesEnd(shown: seq<byte>, rest: seq<byte>, text: seq<byte>)
    requires Continues(shown, rest, text)
    ensures |text| == |shown| + |rest| && shown <= text && text == text[..|shown|] + rest
    ensures |rest| == 0 ==> shown == text
  {
    assert text[..|shown|] == shown;
  }

  /** Puts the terminating zero behind the `written` characters. */
  method Terminate(buffer: array<byte>, written: nat)
    requires written < buffer.Length
    modifies buffer
    ensures buffer[written] == 0 && buffer[..written] == old(buffer[..written])
    ensures forall i :: written < i < buffer.Length ==> buffer[i] == old(buffer[i])
  {
    buffer[written] := 0;
  }

  /** The piece the loop takes next: what it emits, and what is left of the format and the arguments. */
  datatype Piece = Piece(text: seq<byte>, fmt: seq<byte>, args: seq<Arg>)

  /** Taking the piece off leaves the rest of the text to come. */
  ghost predicate Takes(fmt: seq<byte>, args: seq<Arg>, numbers: bool, cap: nat, p: Piece) {
    && PieceLength(Left(fmt, args), numbers, cap, |p.text|)
    && ArgsFit(fmt, args, numbers) && ArgsFit(p.fmt, p.args, numbers)
    && Format(fmt, args, numbers) == p.text + Format(p.fmt, p.args, numbers)
    && |p.fmt| < |fmt|
  }

  /** One round of the loop of `snprintf`, up to the bounds test: which piece comes next. */
  method NextPiece(fmt: seq<byte>, args: seq<Arg>, limit: nat) returns (p: Piece)
    requires |fmt| > 0 && ArgsFit(fmt, args, false)
    ensures Takes(fmt, args, false, limit, p)
  {
    hide Hex, DecimalText;
    if fmt[0] != PERCENT || (|fmt| > 1 && fmt[1] == PERCENT) {
      var start := if fmt[0] == PERCENT then fmt[1..] else fmt;
      var amount := CountRun(start, limit);
      RunText(fmt, args, false, start, amount);
      return Piece(start[..amount], start[amount..], args);
    }
    if |fmt| > 1 && fmt[1] == CHAR {
      return Piece([args[0].c], fmt[2..], args[1..]);
    } else if |fmt| > 1 && fmt[1] == STRING {
      return Piece(args[0].s, fmt[2..], args[1..]);
    }
    assert fmt[|fmt|..] == [];
    p := Piece(fmt, fmt[|fmt|..], args);
    assert fmt + [] == fmt;
  }

  /**
   `snprintf` writes only below index `value`; what it leaves is a terminated beginning of the formatted text.
   If the text fits it is the whole text and its length is returned. Otherwise it stops before the first piece that
   does not fit and returns -1, or fills the buffer exactly and returns `value - 1` although the text goes on.
   */
  method Snprintf(buffer: array<byte>, value: nat, fmt: seq<byte>, args: seq<Arg>)
    returns (r: int, ghost n: nat, ghost left: Left)
    requires value <= buffer.Length && ArgsFit(fmt, args, false)
    requires value <= 0x8000_0000 || |Format(fmt, args, false)| <= 0x7FFF_FFFF
    modifies buffer
    ensures forall i :: value <= i < buffer.Length ==> buffer[i] == old(buffer[i])
    ensures value == 0 ==> r == 0
    ensures value > 0 ==> n < value && buffer[n] == 0 && buffer[..n] <= Format(fmt, args, false) && (r == n || r == -1)
    ensures value > 0 && |Format(fmt, args, false)| < value ==>
      r == n == |Format(fmt, args, false)| && Rendered(fmt, args, false, buffer[..n])
    ensures value > 0 && |Format(fmt, args, false)| >= value ==>
      && r == (if n < value - 1 then -1 else value - 1)
      && Reaches(fmt, args, false, n, left)
      && (r == -1 ==> TooLong(left, false, value - 1, value - 1 - n))
  {
    hide Format, ArgsFit, ArgText, PieceLength, Rendered, Reaches, Continues, TooLong;
    left := Left(fmt, args);
    if value == 0 {
      return 0, 0, left;
    }
    FormatRenders(fmt, args, false);
    var limit, written := value - 1, 0;
    var format, params := fmt, args;
    ghost var text := Format(fmt, args, false);
    ContinuesStart(buffer[..0], text);
    while |format| > 0 && written < limit
      invariant 0 <= written <= limit && ArgsFit(format, params, false)
      invariant Continues(buffer[..written], Format(format, params, false), text)
      invariant forall i :: value <= i < buffer.Length ==> buffer[i] == old(buffer[i])
      decreases |format|
    {
      var piece := NextPiece(format, params, limit);
      if limit - written < |piece.text| {
        Terminate(buffer, written);
        ContinuesEnd(buffer[..written], Format(format, params, false), text);
        ReachesHere(fmt, args, false, written, Left(format, params));
        NextTooLong(Left(format, params), limit, limit - written, |piece.text|);
        assert |piece.text| <= |Format(format, params, false)|;
        return -1, written, Left(format, params);
      }
      ContinuesOn(buffer[..written], piece.text, Format(piece.fmt, piece.args, false), text);
      WriteToBuffer(piece.text, buffer, written);
      format, params, written := piece.fmt, piece.args, written + |piece.text|;
    }
    Terminate(buffer, written);
    ContinuesEnd(buffer[..written], Format(format, params, false), text);
    if |format| == 0 {
      FormatNothing(format, params);
    }
    ReachesHere(fmt, args, false, written, Left(format, params));
    return written, written, Left(format, params);
  }

  lemma FormatNothing(fmt: seq<byte>, args: seq<Arg>)
    requires |fmt| == 0
    ensures ArgsFit(fmt, args, false) && Format(fmt, args, false) == []
    ensures ArgsFit(fmt, args, true) && Format(fmt, args, true) == []
  {
  }

  // ---------------------------------------------------------------- printf

  /** How `printf` ends: the count it returns, -1, a panic, or an overflow of its counter. */
  datatype Outcome = Wrote(n: nat) | Failed | Panicked | Overflowed

  /** How `printf` ends if the next piece of the format does not fit its counter. */
  function ExitOf(fmt: seq<byte>): Outcome
    requires |fmt| > 0
  {
    if fmt[0] != 37 || (|fmt| > 1 && (fmt[1] == 37 || fmt[1] == 99)) then Panicked
    else if |fmt| > 1 && (fmt[1] == 120 || fmt[1] == 100) then Overflowed
    else Failed
  }

  /**
   `printf` stops before a piece that would take its counter above the largest `int`, and ends as that piece
   says. Only numbers are put out before their length is added.
   */
  ghost predicate Stopped(fmt: seq<byte>, args: seq<Arg>, left: Left, n: nat, r: Outcome) {
    && |left.fmt| > 0 && r == ExitOf(left.fmt)
    && exists m: nat :: PieceLength(left, true, |left.fmt|, m)
         && if r == Overflowed then 0x7FFF_FFFF < n <= m + 0x7FFF_FFFF && n >= m && Reaches(fmt, args, true, n - m, left)
            else n <= 0x7FFF_FFFF < n + m && Reaches(fmt, args, true, n, left)
  }

  /** One round of the loop of `printf`: the next piece, and what happens if it does not fit the counter. */
  method NextPrint(fmt: seq<byte>, args: seq<Arg>) returns (p: Piece, overflow: Outcome, emitFirst: bool)
    requires |fmt| > 0 && ArgsFit(fmt, args, true)
    ensures Takes(fmt, args, true, |fmt|, p)
    ensures overflow == ExitOf(fmt) && emitFirst == (overflow == Overflowed)
  {
    emitFirst := false;
    if fmt[0] != PERCENT || (|fmt| > 1 && fmt[1] == PERCENT) {
      var start := if fmt[0] == PERCENT then fmt[1..] else fmt;
      var amount := CountRun(start, |start|);
      RunText(fmt, args, true, start, amount);
      return Piece(start[..amount], start[amount..], args), Panicked, false;
    }
    if |fmt| > 1 && fmt[1] == CHAR {
      return Piece([args[0].c], fmt[2..], args[1..]), Panicked, false;
    } else if |fmt| > 1 && fmt[1] == STRING {
      return Piece(args[0].s, fmt[2..], args[1..]), Failed, false;
    } else if |fmt| > 1 && fmt[1] == HEX {
      var text := PrintHex(args[0].u);
      return Piece(text, fmt[2..], args[1..]), Overflowed, true;
    } else if |fmt| > 1 && fmt[1] == DECIMAL {
      var text := PrintDecimal(args[0].i);
      return Piece(text, fmt[2..], args[1..]), Overflowed, true;
    }
    p, overflow := Piece(fmt, fmt[|fmt|..], args), Failed;
    FormatNothing(p.fmt, args);
    assert fmt + [] == fmt;
  }

  /**
   `printf` puts exactly the formatted text on the screen and returns its length if that is at most `INT_MAX`;
   otherwise it stops after a beginning of the text and reports no count.
   */
  method Printf(screen: Screen, fmt: seq<byte>, args: seq<Arg>)
    returns (r: Outcome, ghost text: seq<byte>, ghost n: nat, ghost left: Left)
    requires screen.Valid() && ArgsFit(fmt, args, true)
    modifies screen, screen.buffer
    ensures screen.Valid() && text == Format(fmt, args, true) && Rendered(fmt, args, true, text)
    ensures n <= |text| && screen.page == PutAll(old(screen.page), text[..n])
    ensures |text| <= 0x7FFF_FFFF ==> n == |text| && r == Wrote(n)
    ensures |text| > 0x7FFF_FFFF ==> Stopped(fmt, args, left, n, r)
  {
    hide Format, ArgsFit, ArgText, PutAll, PieceLength, Rendered, ExitOf;
    var written, format, params := 0, fmt, args;
    ghost var page := screen.page;
    text, n, left := Format(fmt, args, true), 0, Left(fmt, args);
    FormatRenders(fmt, args, true);
    PutNothing(page, text[..0]);
    assert text[..0] + text == text;
    while |format| > 0
      invariant screen.Valid() && ArgsFit(format, params, true)
      invariant 0 <= written == n <= |text| && written <= INT_MAX
      invariant text == text[..n] + Format(format, params, true)
      invariant PageOk(page) && screen.page == PutAll(page, text[..n])
      decreases |format|
    {
      left := Left(format, params);
      assert Reaches(fmt, args, true, n, left);
      var piece, overflow, emitFirst := NextPrint(format, params);
      SplitText(text, n, piece.text, Format(piece.fmt, piece.args, true));
      if INT_MAX - written < |piece.text| && !emitFirst {
        return overflow, text, n, left;
      }
      PutAllConcat(page, text[..n], piece.text);
      screen.Write(piece.text);
      n := n + |piece.text|;
      if INT_MAX - written < |piece.text| {
        return overflow, text, n, left;
      }
      format, params, written := piece.fmt, piece.args, written + |piece.text|;
    }
    FormatNothing(format, params);
    assert text[..n] + [] == text[..n];
    assert text[..n] == text;
    r := Wrote(written);
  }

  lemma PutNothing(p: Page, s: seq<byte>)
    requires PageOk(p) && |s| == 0
    ensures PutAll(p, s) == p
  {
  }

  lemma SplitText(text: seq<byte>, n: nat, piece: seq<byte>, rest: seq<byte>)
    requires n <= |text| && text == text[..n] + (piece + rest)
    ensures n + |piece| <= |text| && text[..n] + piece == text[..n + |piece|]
    ensures text == text[..n + |piece|] + rest
  {
    assert text == (text[..n] + piece) + rest;
  }
}
