/** The text terminal: an 80x25 buffer scrolled in place, as a window on a page that never scrolls. */
module Terminal {
  import opened Bytes

  const WIDTH: nat := 80
  const HEIGHT: nat := 25
  const NEWLINE: byte := 10
  const RETURN: byte := 13

  type Cell = nat

  /** A character under a color: `vga_char`. */
  function VgaChar(c: byte, color: byte): (cell: Cell)
    ensures cell % 256 == c && cell / 256 == color
  {
    c + 256 * color
  }

  // ---------------------------------------------------------------- the page

  /** An unbounded page: rows are added at the bottom and never move. */
  datatype Page = Page(rows: seq<seq<Cell>>, x: nat, y: nat, color: byte)

  function BlankRow(color: byte): (r: seq<Cell>)
    ensures |r| == WIDTH
  {
    seq(WIDTH, _ => VgaChar(32, color))
  }

  function BlankPage(color: byte): Page {
    Page(seq(HEIGHT, _ => BlankRow(color)), 0, 0, color)
  }

  predicate PageOk(p: Page) {
    && p.x < WIDTH && p.y < |p.rows| && HEIGHT <= |p.rows| <= p.y + HEIGHT
    && forall r :: 0 <= r < |p.rows| ==> |p.rows[r]| == WIDTH
  }

  /** The start of line `y`, on a page with enough rows for it. */
  function GoTo(p: Page, y: nat): Page {
    p.(x := 0, y := y, rows := if y < |p.rows| then p.rows else p.rows + [BlankRow(p.color)])
  }

  function SetAt(row: seq<Cell>, x: nat, cell: Cell): (r: seq<Cell>)
    requires x < |row|
    ensures |r| == |row|
  {
    row[x := cell]
  }

  /** The page with `cell` at the cursor. */
  function SetCell(p: Page, cell: Cell): (p': Page)
    requires PageOk(p)
    ensures PageOk(p')
  {
    p.(rows := p.rows[p.y := SetAt(p.rows[p.y], p.x, cell)])
  }

  function Put(p: Page, c: byte): (p': Page)
    requires PageOk(p)
    ensures PageOk(p')
  {
    if c == NEWLINE then GoTo(p, p.y + 1)
    else if c == RETURN then p.(x := 0)
    else
      var q := SetCell(p, VgaChar(c, p.color));
      if p.x + 1 < WIDTH then q.(x := p.x + 1) else GoTo(q, p.y + 1)
  }

  function PutAll(p: Page, data: seq<byte>): (p': Page)
    requires PageOk(p)
    ensures PageOk(p')
    decreases data
  {
    if |data| == 0 then p else PutAll(Put(p, data[0]), data[1..])
  }

  lemma {:induction false} PutAllConcat(p: Page, a: seq<byte>, b: seq<byte>)
    requires PageOk(p)
    ensures PutAll(p, a + b) == PutAll(PutAll(p, a), b)
    decreases a
  {
    if |a| == 0 {
      assert a + b == b;
    } else {
      assert (a + b)[1..] == a[1..] + b;
      PutAllConcat(Put(p, a[0]), a[1..], b);
    }
  }

  /** Where a character goes and where the cursor is afterwards. */
  lemma PutEffect(p: Page, c: byte)
    requires PageOk(p)
    ensures var q := Put(p, c);
      && q.color == p.color && |p.rows| <= |q.rows|
      && (c == 10 ==> q.x == 0 && q.y == p.y + 1)
      && (c == 13 ==> q.x == 0 && q.y == p.y)
      && (c != 10 && c != 13 && p.x < 79 ==> q.x == p.x + 1 && q.y == p.y)
      && (c != 10 && c != 13 && p.x == 79 ==> q.x == 0 && q.y == p.y + 1)
  {
  }

  /** A printable character changes the cell at the cursor; newline and return change none; new rows are blank. */
  lemma PutCells(p: Page, c: byte, row: nat, col: nat)
    requires PageOk(p) && row < |Put(p, c).rows| && col < 80
    ensures var cell := Put(p, c).rows[row][col];
      if row == p.y && col == p.x && c != 10 && c != 13 then cell == c + 256 * p.color
      else if row < |p.rows| then cell == p.rows[row][col]
      else cell == 32 + 256 * p.color
  {
  }

  /** Rows above the cursor are final: no later character changes them. */
  lemma {:induction false} AboveIsFinal(p: Page, data: seq<byte>, r: nat)
    requires PageOk(p) && r < p.y
    ensures var p' := PutAll(p, data); p.y <= p'.y && |p.rows| <= |p'.rows| && p'.rows[r] == p.rows[r]
    decreases data
  {
    if |data| > 0 {
      AboveIsFinal(Put(p, data[0]), data[1..], r);
    }
  }

  /** The cell at linear position `i`, counting from the top left of the page. */
  function CellAt(p: Page, i: nat): Cell
    requires PageOk(p) && i < |p.rows| * WIDTH
  {
    p.rows[i / WIDTH][i % WIDTH]
  }

  function Position(p: Page): nat {
    p.y * WIDTH + p.x
  }

  predicate Plain(data: seq<byte>) {
    forall i :: 0 <= i < |data| ==> data[i] != NEWLINE && data[i] != RETURN
  }

  lemma PutPlain(p: Page, c: byte)
    requires PageOk(p) && c != NEWLINE && c != RETURN
    ensures var q := Put(p, c);
      && Position(q) == Position(p) + 1
      && Position(p) < |p.rows| * WIDTH && |p.rows| <= |q.rows|
      && CellAt(q, Position(p)) == VgaChar(c, p.color) && q.color == p.color
      && forall i :: 0 <= i < Position(p) ==> CellAt(q, i) == CellAt(p, i)
  {
    var q := Put(p, c);
    assert Position(p) / WIDTH == p.y && Position(p) % WIDTH == p.x;
    forall i | 0 <= i < Position(p)
      ensures CellAt(q, i) == CellAt(p, i)
    {
      assert i == i / WIDTH * WIDTH + i % WIDTH;
      if i / WIDTH == p.y {
        assert i % WIDTH < p.x;
      } else {
        assert i / WIDTH < p.y;
      }
    }
  }

  /** The stretch of `n` cells from position `i` on shows `data`. */
  ghost predicate Filled(p: Page, i: nat, data: seq<byte>, color: byte)
    requires PageOk(p) && i + |data| <= |p.rows| * WIDTH
  {
    forall j :: i <= j < i + |data| ==> CellAt(p, j) == VgaChar(data[j - i], color)
  }

  /** The first `n` cells are the same. */
  ghost predicate SameUpTo(p: Page, q: Page, n: nat)
    requires PageOk(p) && PageOk(q) && n <= |p.rows| * WIDTH && n <= |q.rows| * WIDTH
  {
    forall i :: 0 <= i < n ==> CellAt(q, i) == CellAt(p, i)
  }

  lemma FilledCons(q: Page, p': Page, i: nat, data: seq<byte>, color: byte)
    requires PageOk(q) && PageOk(p') && |data| > 0
    requires i + 1 <= |q.rows| * WIDTH && i + |data| <= |p'.rows| * WIDTH
    requires CellAt(q, i) == VgaChar(data[0], color) && SameUpTo(q, p', i + 1)
    requires Filled(p', i + 1, data[1..], color)
    ensures Filled(p', i, data, color)
  {
    hide CellAt, PageOk;
    assert CellAt(p', i) == CellAt(q, i);
    forall j | i <= j < i + |data|
      ensures CellAt(p', j) == VgaChar(data[j - i], color)
    {
      if j > i {
        assert data[1..][j - (i + 1)] == data[j - i];
      }
    }
  }

  /** Text without control characters fills the page cell after cell: nothing is lost at the line ends. */
  lemma {:induction false} PlainText(p: Page, data: seq<byte>)
    requires PageOk(p) && Plain(data)
    ensures Position(p) <= |p.rows| * WIDTH
    ensures var p' := PutAll(p, data);
      && Position(p') == Position(p) + |data| <= |p'.rows| * WIDTH
      && Filled(p', Position(p), data, p.color)
      && SameUpTo(p, p', Position(p))
    decreases data
  {
    if |data| > 0 {
      var q, rest := Put(p, data[0]), data[1..];
      PutPlain(p, data[0]);
      PlainText(q, rest);
      hide CellAt, PageOk, Put, Position;
      FilledCons(q, PutAll(q, rest), Position(p), data, p.color);
    }
  }

  lemma SameTrans(p: Page, q: Page, r: Page, m: nat, n: nat)
    requires PageOk(p) && PageOk(q) && PageOk(r) && m <= n
    requires n <= |q.rows| * WIDTH && n <= |r.rows| * WIDTH && m <= |p.rows| * WIDTH
    requires SameUpTo(p, q, m) && SameUpTo(q, r, n)
    ensures SameUpTo(p, r, m)
  {
    hide CellAt, PageOk;
  }

  lemma FilledKept(q: Page, r: Page, i: nat, data: seq<byte>, color: byte, n: nat)
    requires PageOk(q) && PageOk(r) && i + |data| <= n <= |q.rows| * WIDTH && n <= |r.rows| * WIDTH
    requires Filled(q, i, data, color) && SameUpTo(q, r, n)
    ensures Filled(r, i, data, color)
  {
    hide CellAt, PageOk;
  }

  /** A newline or a return keeps every cell. */
  lemma ControlKeeps(p: Page, c: byte)
    requires PageOk(p) && (c == 10 || c == 13)
    ensures SameUpTo(p, Put(p, c), |p.rows| * WIDTH)
  {
    var q := Put(p, c);
    assert q.rows[..|p.rows|] == p.rows;
    forall i | 0 <= i < |p.rows| * WIDTH
      ensures CellAt(q, i) == CellAt(p, i)
    {
      assert i / WIDTH < |p.rows|;
    }
  }

  /** The text behind a newline stands at the start of the next row, and the text before it where it stood. */
  lemma LineBreak(p: Page, a: seq<byte>, b: seq<byte>, text: seq<byte>)
    requires PageOk(p) && Plain(a) && Plain(b) && text == a + [10] + b
    ensures var q, p' := PutAll(p, a), PutAll(p, text);
      && Position(p) + |a| <= (q.y + 1) * 80 <= (q.y + 1) * 80 + |b| <= |p'.rows| * 80
      && Filled(p', Position(p), a, p.color) && Filled(p', (q.y + 1) * 80, b, p.color)
      && Position(p') == (q.y + 1) * 80 + |b|
  {
    hide PutAll, Put, CellAt, PageOk, Filled, SameUpTo, Plain, Position;
    Broken(p, a, b, 10);
    BreakAfter(p, a, b);
  }

  lemma BreakAfter(p: Page, a: seq<byte>, b: seq<byte>)
    requires PageOk(p) && Plain(a) && Plain(b)
    ensures var q := PutAll(p, a); var p' := PutAll(Put(q, 10), b);
      && Position(p) + |a| <= (q.y + 1) * 80 <= (q.y + 1) * 80 + |b| <= |p'.rows| * 80
      && Filled(p', Position(p), a, p.color) && Filled(p', (q.y + 1) * 80, b, p.color)
      && Position(p') == (q.y + 1) * 80 + |b|
  {
    hide PutAll, Put, CellAt, PageOk, Filled, SameUpTo, Plain, Position;
    var q := PutAll(p, a);
    PlainText(p, a);
    ColorKept(p, a);
    NextRow(q, b);
    FilledKept(q, PutAll(Put(q, 10), b), Position(p), a, p.color, Position(q));
  }

  /** Text on a new row keeps all cells up to the cursor. */
  lemma NextRow(q: Page, b: seq<byte>)
    requires PageOk(q) && Plain(b)
    ensures var p' := PutAll(Put(q, 10), b);
      && Position(q) < (q.y + 1) * 80 <= |q.rows| * 80
      && Position(p') == (q.y + 1) * 80 + |b| <= |p'.rows| * 80
      && Filled(p', (q.y + 1) * 80, b, q.color) && SameUpTo(q, p', Position(q))
  {
    hide PutAll, Put, CellAt, PageOk, Filled, SameUpTo, Plain;
    var r := Put(q, 10);
    RowEnd(q);
    PutEffect(q, 10);
    ControlKeeps(q, 10);
    PlainText(r, b);
    hide Position;
    SameAgain(q, r, |q.rows| * WIDTH, Position(q));
    SameTrans(q, r, PutAll(r, b), Position(q), Position(r));
  }

  lemma Broken(p: Page, a: seq<byte>, b: seq<byte>, c: byte)
    requires PageOk(p)
    ensures PutAll(p, a + [c] + b) == PutAll(Put(PutAll(p, a), c), b)
    ensures PutAll(p, a).color == p.color
  {
    hide Put;
    PutAllConcat(p, a + [c], b);
    PutAllConcat(p, a, [c]);
    assert |[c][1..]| == 0;
    ColorKept(p, a);
  }

  lemma {:induction false} ColorKept(p: Page, data: seq<byte>)
    requires PageOk(p)
    ensures PutAll(p, data).color == p.color
    decreases data
  {
    if |data| > 0 {
      PutEffect(p, data[0]);
      hide Put;
      ColorKept(Put(p, data[0]), data[1..]);
    }
  }

  lemma SameAgain(p: Page, q: Page, n: nat, m: nat)
    requires PageOk(p) && PageOk(q) && m <= n <= |p.rows| * WIDTH && n <= |q.rows| * WIDTH && SameUpTo(p, q, n)
    ensures SameUpTo(p, q, m)
  {
    hide CellAt, PageOk;
  }

  lemma RowEnd(p: Page)
    requires PageOk(p)
    ensures Position(p) < (p.y + 1) * WIDTH <= |p.rows| * WIDTH
  {
  }

  /** The text behind a return overwrites the row of the cursor from its start. */
  lemma Overwrite(p: Page, a: seq<byte>, b: seq<byte>, text: seq<byte>)
    requires PageOk(p) && Plain(a) && Plain(b) && text == a + [13] + b
    ensures var q, p' := PutAll(p, a), PutAll(p, text);
      && q.y * 80 + |b| <= |p'.rows| * 80
      && Filled(p', q.y * 80, b, p.color) && Position(p') == q.y * 80 + |b|
  {
    hide PutAll, Put, CellAt, PageOk, Filled, SameUpTo, Plain, Position;
    Broken(p, a, b, 13);
    SameRow(PutAll(p, a), b);
  }

  lemma SameRow(q: Page, b: seq<byte>)
    requires PageOk(q) && Plain(b)
    ensures var p' := PutAll(Put(q, 13), b);
      && Position(p') == q.y * 80 + |b| <= |p'.rows| * 80 && Filled(p', q.y * 80, b, q.color)
  {
    hide PutAll, Put, CellAt, PageOk, Filled, SameUpTo, Plain;
    PutEffect(q, 13);
    PlainText(Put(q, 13), b);
  }

  // ---------------------------------------------------------------- the buffer

  /** The cell in row `r`, column `c` of the buffer. */
  function At(buffer: seq<Cell>, r: nat, c: nat): Cell
    requires |buffer| == WIDTH * HEIGHT && r < HEIGHT && c < WIDTH
  {
    buffer[r * WIDTH + c]
  }

  /** The buffer shows the last 25 rows of the page. */
  ghost predicate Shows(buffer: seq<Cell>, p: Page) {
    && PageOk(p) && |buffer| == WIDTH * HEIGHT
    && forall r: nat, c: nat :: r < HEIGHT && c < WIDTH ==>
         At(buffer, r, c) == p.rows[|p.rows| - HEIGHT + r][c]
  }

  /** One more blank row moves the window down by one. */
  lemma Scrolled(was: seq<Cell>, now: seq<Cell>, p: Page)
    requires Shows(was, p) && |now| == WIDTH * HEIGHT && p.y == |p.rows| - 1
    requires forall i :: 0 <= i < WIDTH * (HEIGHT - 1) ==> now[i] == was[i + WIDTH]
    requires forall i :: WIDTH * (HEIGHT - 1) <= i < WIDTH * HEIGHT ==> now[i] == VgaChar(32, p.color)
    ensures Shows(now, GoTo(p, p.y + 1))
  {
    var q := GoTo(p, p.y + 1);
    forall r: nat, c: nat | r < HEIGHT && c < WIDTH
      ensures At(now, r, c) == q.rows[|q.rows| - HEIGHT + r][c]
    {
      if r < HEIGHT - 1 {
        assert At(now, r, c) == At(was, r + 1, c);
      }
    }
  }

  lemma Written(was: seq<Cell>, p: Page, row: nat, cell: Cell)
    requires Shows(was, p) && row == p.y - (|p.rows| - HEIGHT)
    ensures row < HEIGHT && row * WIDTH + p.x < |was|
    ensures Shows(was[row * WIDTH + p.x := cell], SetCell(p, cell))
  {
    var now, q := was[row * WIDTH + p.x := cell], SetCell(p, cell);
    forall r: nat, c: nat | r < HEIGHT && c < WIDTH
      ensures At(now, r, c) == q.rows[|q.rows| - HEIGHT + r][c]
    {
      assert At(was, r, c) == p.rows[|p.rows| - HEIGHT + r][c];
    }
  }

  lemma MoveOnly(buffer: seq<Cell>, p: Page, q: Page)
    requires Shows(buffer, p) && q.rows == p.rows && PageOk(q)
    ensures Shows(buffer, q)
  {
  }

  /** The first `n` cells of `now` are those of `was` one row below; the others are as they were. */
  ghost predicate Lifted(was: seq<Cell>, now: seq<Cell>, n: nat) {
    && |now| == |was| == WIDTH * HEIGHT && n <= WIDTH * (HEIGHT - 1)
    && forall i :: 0 <= i < |now| ==> now[i] == was[if i < n then i + WIDTH else i]
  }

  lemma LiftStart(was: seq<Cell>)
    requires |was| == WIDTH * HEIGHT
    ensures Lifted(was, was, 0)
  {
  }

  lemma LiftStep(was: seq<Cell>, now: seq<Cell>, n: nat)
    requires Lifted(was, now, n) && n < WIDTH * (HEIGHT - 1)
    ensures |now| == WIDTH * HEIGHT && Lifted(was, now[n := now[n + WIDTH]], n + 1)
  {
  }

  lemma LiftEnd(was: seq<Cell>, now: seq<Cell>)
    requires Lifted(was, now, WIDTH * (HEIGHT - 1))
    ensures |was| == |now| == WIDTH * HEIGHT
    ensures forall i :: 0 <= i < WIDTH * (HEIGHT - 1) ==> now[i] == was[i + WIDTH]
  {
  }

  class Screen {
    const buffer: array<Cell>
    var cursorX: nat
    var cursorY: nat
    const color: byte
    ghost var page: Page

    ghost predicate Valid()
      reads this, buffer
    {
      && buffer.Length == WIDTH * HEIGHT && Shows(buffer[..], page) && page.color == color
      && cursorX == page.x && cursorY == page.y - (|page.rows| - HEIGHT)
    }

    /** `terminal_init`, on the memory of the VGA text mode: white on black, everything blank. */
    constructor (vga: array<Cell>)
      requires vga.Length == 2000
      modifies vga
      ensures Valid() && buffer == vga && color == 15 && page == BlankPage(15)
      ensures cursorX == 0 && cursorY == 0 && forall i :: 0 <= i < 2000 ==> vga[i] == 0x0F20
    {
      cursorX, cursorY, color, page := 0, 0, 15, BlankPage(15);
      buffer := vga;
      new;
      ClearScreen();
    }

    method ClearScreen()
      requires buffer.Length == WIDTH * HEIGHT
      modifies buffer
      ensures forall i :: 0 <= i < buffer.Length ==> buffer[i] == VgaChar(32, color)
    {
      for i := 0 to WIDTH * HEIGHT
        invariant forall j :: 0 <= j < i ==> buffer[j] == VgaChar(32, color)
      {
        buffer[i] := VgaChar(32, color);
      }
    }

    /** Moves every row up by one and blanks the last. */
    method ClearLastLine()
      requires buffer.Length == WIDTH * HEIGHT
      modifies buffer, `cursorY
      ensures cursorY == HEIGHT - 1
      ensures forall i :: 0 <= i < WIDTH * (HEIGHT - 1) ==> buffer[i] == old(buffer[..])[i + WIDTH]
      ensures forall i :: WIDTH * (HEIGHT - 1) <= i < WIDTH * HEIGHT ==> buffer[i] == VgaChar(32, color)
    {
      hide Lifted;
      ghost var was := buffer[..];
      LiftStart(was);
      for row := 1 to HEIGHT
        invariant Lifted(was, buffer[..], (row - 1) * WIDTH)
      {
        for col := 0 to WIDTH
          invariant Lifted(was, buffer[..], (row - 1) * WIDTH + col)
        {
          ghost var now := buffer[..];
          LiftStep(was, now, (row - 1) * WIDTH + col);
          buffer[(row - 1) * WIDTH + col] := buffer[row * WIDTH + col];
          assert buffer[..] == now[(row - 1) * WIDTH + col := now[row * WIDTH + col]];
        }
      }
      ghost var up := buffer[..];
      LiftEnd(was, up);
      for col := 0 to WIDTH
        invariant forall i :: 0 <= i < WIDTH * (HEIGHT - 1) ==> buffer[i] == up[i]
        invariant forall i :: WIDTH * (HEIGHT - 1) <= i < WIDTH * (HEIGHT - 1) + col ==> buffer[i] == VgaChar(32, color)
      {
        buffer[(HEIGHT - 1) * WIDTH + col] := VgaChar(32, color);
      }
      cursorY := HEIGHT - 1;
    }

    /** Stores a printable character at the cursor. */
    method StoreCell(c: byte)
      requires Valid()
      modifies buffer, `page
      ensures Valid()
      ensures page == SetCell(old(page), VgaChar(c, color))
    {
      ghost var cell := VgaChar(c, color);
      Written(buffer[..], page, cursorY, cell);
      ghost var was := buffer[..];
      var index := cursorY * WIDTH + cursorX;
      buffer[index] := VgaChar(c, color);
      assert buffer[..] == was[index := cell];
      page := SetCell(page, cell);
    }

    /** Moves to the start of the next line, scrolling if there is none on the screen. */
    method NextLine()
      requires Valid()
      modifies buffer, `page, `cursorX, `cursorY
      ensures Valid() && page == GoTo(old(page), old(page).y + 1)
    {
      ghost var p, was := page, buffer[..];
      cursorX := 0;
      cursorY := cursorY + 1;
      if cursorY >= HEIGHT {
        ClearLastLine();
        Scrolled(was, buffer[..], p);
        cursorX := 0;
      } else {
        MoveOnly(was, p, GoTo(p, p.y + 1));
      }
      page := GoTo(p, p.y + 1);
    }

    method PutChar(c: byte)
      requires Valid()
      modifies buffer, `page, `cursorX, `cursorY
      ensures Valid() && page == Put(old(page), c)
    {
      if c == NEWLINE {
        NextLine();
      } else if c == RETURN {
        cursorX := 0;
        MoveOnly(buffer[..], page, page.(x := 0));
        page := page.(x := 0);
      } else {
        StoreCell(c);
        if cursorX + 1 >= WIDTH {
          NextLine();
        } else {
          MoveOnly(buffer[..], page, page.(x := cursorX + 1));
          page := page.(x := cursorX + 1);
          cursorX := cursorX + 1;
        }
      }
    }

    /** After any text the screen shows the last 25 rows of the page that text makes. */
    method Write(data: seq<byte>)
      requires Valid()
      modifies buffer, `page, `cursorX, `cursorY
      ensures Valid() && page == PutAll(old(page), data)
    {
      assert data[0..] == data;
      for i := 0 to |data|
        invariant Valid() && PutAll(page, data[i..]) == PutAll(old(page), data)
      {
        assert data[i..][0] == data[i] && data[i..][1..] == data[i + 1..];
        PutChar(data[i]);
      }
    }
  }
}
