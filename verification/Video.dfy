/**
 The VGA text screen: a framebuffer of 25 x 80 cells, a ring `pos` of 25 line
 lengths and its head. `LinesOf` reads the abstract terminal out of them: the length
 of screen row r is kept at ring offset 48 - r.
 */
module VideoDriver {
  import opened Bytes
  import opened Terminal

  const CELLS := 2000

  /** POS_CALC_INDX: the slot of the ring at offset `ind` from the head. */
  function Slot(head: nat, ind: nat): (i: nat)
    ensures i < HEIGHT
  {
    (ind + head) % 25
  }

  /** The ring slot that holds the length of screen row `r`. */
  function RowSlot(head: nat, r: nat): (i: nat)
    requires r < HEIGHT
    ensures i < HEIGHT
  {
    Slot(head, 2 * (HEIGHT - 1) - r)
  }

  /** Length of screen row `r`. */
  function Len(pos: seq<nat>, head: nat, r: nat): nat
    requires |pos| == HEIGHT && r < HEIGHT
  {
    pos[RowSlot(head, r)]
  }

  /** Cells past the length of their row that show something. */
  ghost function StrayCells(cells: seq<Entry>, pos: seq<nat>, head: nat): set<nat>
    requires |cells| == CELLS && |pos| == HEIGHT
  {
    set k: nat | k < CELLS && Len(pos, head, k / 80) <= k % 80 && !IsBlank(cells[k])
  }

  /** Framebuffer and ring agree: lengths fit, and nothing shows past the end of a row. */
  ghost predicate Represents(cells: seq<Entry>, pos: seq<nat>, head: nat) {
    && |cells| == CELLS
    && |pos| == HEIGHT
    && (forall i :: 0 <= i < HEIGHT ==> pos[i] <= WIDTH)
    && StrayCells(cells, pos, head) == {}
  }

  ghost predicate BlankPastEnds(cells: seq<Entry>, pos: seq<nat>, head: nat)
    requires |cells| == CELLS && |pos| == HEIGHT
  {
    forall k :: 0 <= k < CELLS && Len(pos, head, k / 80) <= k % 80 ==> IsBlank(cells[k])
  }

  lemma NoStrayCells(cells: seq<Entry>, pos: seq<nat>, head: nat)
    requires |cells| == CELLS && |pos| == HEIGHT
    ensures StrayCells(cells, pos, head) == {} <==> BlankPastEnds(cells, pos, head)
  {
    if BlankPastEnds(cells, pos, head) {
      assert forall k: nat :: k !in StrayCells(cells, pos, head);
    } else {
      var k :| 0 <= k < CELLS && Len(pos, head, k / 80) <= k % 80 && !IsBlank(cells[k]);
      assert k in StrayCells(cells, pos, head);
    }
  }

  ghost function RowOf(cells: seq<Entry>, pos: seq<nat>, head: nat, r: nat): Line
    requires Represents(cells, pos, head) && r < HEIGHT
  {
    cells[r * 80..r * 80 + Len(pos, head, r)]
  }

  ghost function LinesOf(cells: seq<Entry>, pos: seq<nat>, head: nat): Screen
    requires Represents(cells, pos, head)
  {
    seq(HEIGHT, r requires 0 <= r < HEIGHT => RowOf(cells, pos, head, r))
  }

  /** Decrementing the head moves every row's length up one row. */
  lemma HeadUp(head: nat, r: nat)
    requires r < HEIGHT
    ensures RowSlot((head + 24) % 25, r) == if r < HEIGHT - 1 then RowSlot(head, r + 1) else RowSlot(head, 0)
  {
    ReducedHead(head + 24, 48 - r);
    if r < HEIGHT - 1 {
      assert 48 - r + (head + 24) == 48 - (r + 1) + head + 25;
    } else {
      assert 48 - r + (head + 24) == 48 + head;
    }
  }

  /** Only the residue of the head matters. */
  lemma ReducedHead(head: nat, ind: nat)
    ensures Slot(head % 25, ind) == Slot(head, ind)
  {
    assert ind + head == ind + head % 25 + 25 * (head / 25);
  }

  /** Incrementing it moves every length down one row, and the bottom one to the top. */
  lemma HeadDown(head: nat, r: nat)
    requires r < HEIGHT
    ensures RowSlot(head + 1, r) == if r > 0 then RowSlot(head, r - 1) else RowSlot(head, HEIGHT - 1)
  {
  }

  /** The slot of the cursor with `pos_head` and the sum kept in 64 bits. */
  function MachineCursor(head: nat): nat {
    (24 + head % 0x1_0000_0000_0000_0000) % 0x1_0000_0000_0000_0000 % 25
  }

  /** `del_line` never reduces the head, so the 64-bit cursor slot is the one meant exactly
      while the head has not wrapped, or has wrapped a multiple of 25 times. */
  lemma HeadWraps(head: nat)
    ensures MachineCursor(head) == Slot(head, HEIGHT - 1) <==> (head + 24) / 0x1_0000_0000_0000_0000 % 25 == 0
  {
    var n := head + 24;
    var q, r := n / 0x1_0000_0000_0000_0000, n % 0x1_0000_0000_0000_0000;
    var h := head % 0x1_0000_0000_0000_0000;
    assert n == 0x1_0000_0000_0000_0000 * (head / 0x1_0000_0000_0000_0000) + (24 + h);
    assert (24 + h) % 0x1_0000_0000_0000_0000 == r;
    SixteenTimes(q, r);
  }

  lemma SixteenTimes(q: nat, r: nat)
    ensures r % 25 == (0x1_0000_0000_0000_0000 * q + r) % 25 <==> q % 25 == 0
  {
    var u, v, s, t := q / 25, q % 25, r / 25, r % 25;
    var n := 0xA3D_70A3_D70A_3D70 * q + 16 * u + s;
    assert 0x1_0000_0000_0000_0000 * q + r == 25 * n + (16 * v + t);
    Residue(25 * n + (16 * v + t), n, 16 * v + t);
    SixteenTimesSmall(v, t);
  }

  lemma Residue(x: nat, n: nat, y: nat)
    requires x == 25 * n + y
    ensures x % 25 == y % 25
  {
  }

  lemma SixteenTimesSmall(v: nat, t: nat)
    requires v < 25 && t < 25
    ensures (16 * v + t) % 25 == t <==> v == 0
  {
  }

  /** Distinct rows have distinct slots. */
  lemma RowSlotsDiffer(head: nat, r: nat, q: nat)
    requires r < q < HEIGHT
    ensures RowSlot(head, r) != RowSlot(head, q)
  {
  }

  /** Rows moved up one, the bottom row blanked. */
  function MovedUp(cells: seq<Entry>): (c: seq<Entry>)
    requires |cells| == CELLS
    ensures |c| == CELLS
  {
    cells[80..] + Blanks(80)
  }

  /** Rows moved down one, the top row blanked. */
  function MovedDown(cells: seq<Entry>): (c: seq<Entry>)
    requires |cells| == CELLS
    ensures |c| == CELLS
  {
    Blanks(80) + cells[..CELLS - 80]
  }

  function CutTop(pos: seq<nat>, head: nat): seq<nat>
    requires |pos| == HEIGHT
  {
    pos[Slot((head + 24) % 25, HEIGHT - 1) := 0]
  }

  lemma LenAfterScroll(pos: seq<nat>, head: nat, r: nat)
    requires |pos| == HEIGHT && r < HEIGHT
    ensures Len(CutTop(pos, head), (head + 24) % 25, r) == if r < HEIGHT - 1 then Len(pos, head, r + 1) else 0
  {
    var up := (head + 24) % 25;
    HeadUp(head, r);
    if r < HEIGHT - 1 {
      RowSlotsDiffer(up, r, HEIGHT - 1);
    }
  }

  lemma NextRow(k: nat)
    ensures (k + 80) / 80 == k / 80 + 1 && (k + 80) % 80 == k % 80
  {
  }

  lemma ScrollKeepsBlank(cells: seq<Entry>, pos: seq<nat>, head: nat, k: nat)
    requires |cells| == CELLS && |pos| == HEIGHT && BlankPastEnds(cells, pos, head)
    requires k < CELLS && Len(CutTop(pos, head), (head + 24) % 25, k / 80) <= k % 80
    ensures IsBlank(MovedUp(cells)[k])
  {
    LenAfterScroll(pos, head, k / 80);
    if k < CELLS - 80 {
      NextRow(k);
      assert MovedUp(cells)[k] == cells[k + 80];
    }
  }

  lemma ScrollKeepsBlanks(cells: seq<Entry>, pos: seq<nat>, head: nat)
    requires Represents(cells, pos, head)
    ensures Represents(MovedUp(cells), CutTop(pos, head), (head + 24) % 25)
  {
    var up, pos', cells' := (head + 24) % 25, CutTop(pos, head), MovedUp(cells);
    NoStrayCells(cells, pos, head);
    NoStrayCells(cells', pos', up);
    forall k | 0 <= k < CELLS && Len(pos', up, k / 80) <= k % 80
      ensures IsBlank(cells'[k])
    {
      ScrollKeepsBlank(cells, pos, head, k);
    }
  }

  /** A row of the moved cells is the row that was next to it. */
  lemma MovedRows(cells: seq<Entry>, r: nat, len: nat)
    requires |cells| == CELLS && r < HEIGHT - 1 && len <= WIDTH
    ensures MovedUp(cells)[r * 80..r * 80 + len] == cells[(r + 1) * 80..(r + 1) * 80 + len]
    ensures MovedDown(cells)[(r + 1) * 80..(r + 1) * 80 + len] == cells[r * 80..r * 80 + len]
  {
    var a, b := r * 80, (r + 1) * 80;
    assert b == a + 80;
    MovedSlices(cells, a, b, len);
  }

  lemma MovedSlices(cells: seq<Entry>, a: nat, b: nat, len: nat)
    requires |cells| == CELLS && b == a + 80 && b + len <= CELLS
    ensures MovedUp(cells)[a..a + len] == cells[b..b + len]
    ensures MovedDown(cells)[b..b + len] == cells[a..a + len]
  {
    var up, down := MovedUp(cells), MovedDown(cells);
    assert forall k :: a <= k < a + len ==> up[k] == cells[k - a + b];
    assert forall k :: b <= k < b + len ==> down[k] == cells[k - b + a];
    SameSlice(up, a, cells, b, len);
    SameSlice(down, b, cells, a, len);
  }

  lemma SameSlice(c: seq<Entry>, i: nat, d: seq<Entry>, j: nat, len: nat)
    requires i + len <= |c| && j + len <= |d| && forall k :: i <= k < i + len ==> c[k] == d[k - i + j]
    ensures c[i..i + len] == d[j..j + len]
  {
    var x, y := c[i..i + len], d[j..j + len];
    forall k | 0 <= k < len
      ensures x[k] == y[k]
    {
      assert c[i + k] == d[j + k];
    }
  }

  /** The effect of `new_line` on cells and ring is a scroll of the terminal. */
  lemma ScrollRefines(cells: seq<Entry>, pos: seq<nat>, head: nat)
    requires Represents(cells, pos, head)
    ensures Represents(MovedUp(cells), CutTop(pos, head), (head + 24) % 25)
    ensures LinesOf(MovedUp(cells), CutTop(pos, head), (head + 24) % 25) == Scroll(LinesOf(cells, pos, head))
  {
    ScrollKeepsBlanks(cells, pos, head);
    var up, pos', cells' := (head + 24) % 25, CutTop(pos, head), MovedUp(cells);
    var t := LinesOf(cells, pos, head);
    forall r | 0 <= r < HEIGHT
      ensures RowOf(cells', pos', up, r) == Scroll(t)[r]
    {
      LenAfterScroll(pos, head, r);
      if r < HEIGHT - 1 {
        MovedRows(cells, r, Len(pos, head, r + 1));
      }
    }
  }

  lemma ScrollShown(
    cells: seq<Entry>, pos: seq<nat>, head: nat, cells': seq<Entry>, pos': seq<nat>, head': nat)
    requires Represents(cells, pos, head)
    requires cells' == MovedUp(cells) && pos' == CutTop(pos, head) && head' == (head + 24) % 25
    ensures Represents(cells', pos', head') && LinesOf(cells', pos', head') == Scroll(LinesOf(cells, pos, head))
  {
    ScrollRefines(cells, pos, head);
  }

  lemma PullKeepsBlank(cells: seq<Entry>, pos: seq<nat>, head: nat, k: nat)
    requires |cells| == CELLS && |pos| == HEIGHT && BlankPastEnds(cells, pos, head)
    requires k < CELLS && Len(pos, head + 1, k / 80) <= k % 80
    ensures IsBlank(MovedDown(cells)[k])
  {
    HeadDown(head, k / 80);
    if 80 <= k {
      NextRow(k - 80);
      assert MovedDown(cells)[k] == cells[k - 80];
    }
  }

  lemma PullKeepsBlanks(cells: seq<Entry>, pos: seq<nat>, head: nat)
    requires Represents(cells, pos, head)
    ensures Represents(MovedDown(cells), pos, head + 1)
  {
    var down, cells' := head + 1, MovedDown(cells);
    NoStrayCells(cells, pos, head);
    NoStrayCells(cells', pos, down);
    forall k | 0 <= k < CELLS && Len(pos, down, k / 80) <= k % 80
      ensures IsBlank(cells'[k])
    {
      PullKeepsBlank(cells, pos, head, k);
    }
  }

  /** The effect of `del_line` on cells and ring pulls the lines of the terminal down. */
  lemma PullRefines(cells: seq<Entry>, pos: seq<nat>, head: nat)
    requires Represents(cells, pos, head)
    ensures Represents(MovedDown(cells), pos, head + 1)
    ensures LinesOf(MovedDown(cells), pos, head + 1) == Pull(LinesOf(cells, pos, head))
  {
    PullKeepsBlanks(cells, pos, head);
    var down, cells' := head + 1, MovedDown(cells);
    var t := LinesOf(cells, pos, head);
    forall r | 0 <= r < HEIGHT
      ensures RowOf(cells', pos, down, r) == Pull(t)[r]
    {
      HeadDown(head, r);
      if r > 0 {
        MovedRows(cells, r - 1, Len(pos, head, r - 1));
      }
    }
  }

  /** Changing one cell of the bottom row and the length at the cursor slot changes the
      bottom line alone. */
  lemma BottomRowRefines(cells: seq<Entry>, pos: seq<nat>, head: nat, x: nat, e: Entry, len: nat)
    requires Represents(cells, pos, head) && x < WIDTH && len <= WIDTH
    requires var was := Len(pos, head, HEIGHT - 1);
      (x == was && len == was + 1) || (x + 1 == was && len == x && IsBlank(e))
    ensures var cells' := cells[(HEIGHT - 1) * 80 + x := e];
      var pos' := pos[Slot(head, HEIGHT - 1) := len];
      var t := LinesOf(cells, pos, head);
      && Represents(cells', pos', head)
      && LinesOf(cells', pos', head) == t[HEIGHT - 1 := if x < len then t[HEIGHT - 1] + [e] else t[HEIGHT - 1][..x]]
  {
    BottomRowBlanks(cells, pos, head, x, e, len);
    var cells' := cells[1920 + x := e];
    var pos' := pos[Slot(head, HEIGHT - 1) := len];
    var t := LinesOf(cells, pos, head);
    var t' := t[HEIGHT - 1 := if x < len then t[HEIGHT - 1] + [e] else t[HEIGHT - 1][..x]];
    forall r | 0 <= r < HEIGHT
      ensures RowOf(cells', pos', head, r) == t'[r]
    {
      LenAtCursor(pos, head, len, r);
      if r < HEIGHT - 1 {
        SameSlice(cells', r * 80, cells, r * 80, Len(pos, head, r));
      } else {
        BottomSlice(cells, x, e, len);
      }
    }
  }

  lemma LenAtCursor(pos: seq<nat>, head: nat, len: nat, r: nat)
    requires |pos| == HEIGHT && r < HEIGHT
    ensures Len(pos[Slot(head, HEIGHT - 1) := len], head, r) == if r < HEIGHT - 1 then Len(pos, head, r) else len
  {
    assert Slot(head, HEIGHT - 1) == RowSlot(head, HEIGHT - 1);
    if r < HEIGHT - 1 {
      RowSlotsDiffer(head, r, HEIGHT - 1);
    }
  }

  lemma BottomSlice(cells: seq<Entry>, x: nat, e: Entry, len: nat)
    requires |cells| == CELLS && x < WIDTH && (len == x + 1 || len == x)
    ensures cells[1920 + x := e][1920..1920 + len]
            == if x < len then cells[1920..1920 + x] + [e] else cells[1920..1920 + x + 1][..x]
  {
  }

  lemma BottomRowBlanks(cells: seq<Entry>, pos: seq<nat>, head: nat, x: nat, e: Entry, len: nat)
    requires Represents(cells, pos, head) && x < WIDTH && len <= WIDTH
    requires var was := Len(pos, head, HEIGHT - 1);
      (x == was && len == was + 1) || (x + 1 == was && len == x && IsBlank(e))
    ensures Represents(cells[1920 + x := e], pos[Slot(head, HEIGHT - 1) := len], head)
  {
    var cells' := cells[1920 + x := e];
    var pos' := pos[Slot(head, HEIGHT - 1) := len];
    NoStrayCells(cells, pos, head);
    NoStrayCells(cells', pos', head);
    forall k | 0 <= k < CELLS && Len(pos', head, k / 80) <= k % 80
      ensures IsBlank(cells'[k])
    {
      LenAtCursor(pos, head, len, k / 80);
    }
  }

  /** The ring slot that the driver reads as its cursor holds the length of the bottom line. */
  lemma CursorIsLength(cells: seq<Entry>, pos: seq<nat>, head: nat)
    requires Represents(cells, pos, head)
    ensures pos[Slot(head, HEIGHT - 1)] == |LinesOf(cells, pos, head)[HEIGHT - 1]|
  {
    assert Slot(head, HEIGHT - 1) == RowSlot(head, HEIGHT - 1);
  }

  /** Cell x of line r lies at 80 * r + x of the framebuffer; cells past the end of a line show
      a NUL or a space. */
  lemma CellShown(cells: seq<Entry>, pos: seq<nat>, head: nat, r: nat, x: nat)
    requires Represents(cells, pos, head) && r < 25 && x < 80
    ensures var line := LinesOf(cells, pos, head)[r];
      if x < |line| then line[x] == cells[80 * r + x] else cells[80 * r + x] % 0x100 in {0, 32}
  {
    NoStrayCells(cells, pos, head);
    assert (80 * r + x) / 80 == r && (80 * r + x) % 80 == x;
    assert LinesOf(cells, pos, head)[r] == RowOf(cells, pos, head, r);
    assert BlankPastEnds(cells, pos, head);
  }

  /** The text of a NUL-terminated string: everything before the first NUL. */
  function CText(p: seq<Byte>): (s: seq<Byte>)
    requires 0 in p
    ensures |s| < |p| && s == p[..|s|] && p[|s|] == 0 && 0 !in s
    decreases |p|
  {
    if p[0] == 0 then [] else [p[0]] + CText(p[1..])
  }

  method Strlen(p: seq<Byte>) returns (n: nat)
    requires 0 in p
    ensures n <= |p| && p[..n] == CText(p)
  {
    var len := 0;
    while p[len] != 0
      invariant 0 <= len <= |CText(p)|
      decreases |p| - len
    {
      len := len + 1;
    }
    n := len;
  }

  /** Copies row `src` over row `dst`. */
  method CopyRow(mem: array<Entry>, dst: nat, src: nat)
    requires mem.Length == CELLS && dst < HEIGHT && src < HEIGHT && dst != src
    modifies mem
    ensures forall k :: 0 <= k < CELLS ==>
      mem[k] == if dst * 80 <= k < dst * 80 + WIDTH then old(mem[k + (src - dst) * 80]) else old(mem[k])
  {
    var x := 0;
    while x < WIDTH
      invariant 0 <= x <= WIDTH
      invariant forall k :: 0 <= k < CELLS ==>
        mem[k] == if dst * 80 <= k < dst * 80 + x then old(mem[k + (src - dst) * 80]) else old(mem[k])
    {
      mem[dst * 80 + x] := mem[src * 80 + x];
      x := x + 1;
    }
  }

  /** Fills row `y` with black spaces. */
  method BlankRow(mem: array<Entry>, y: nat)
    requires mem.Length == CELLS && y < HEIGHT
    modifies mem
    ensures forall k :: 0 <= k < CELLS ==>
      mem[k] == if y * 80 <= k < y * 80 + WIDTH then SPACE else old(mem[k])
  {
    var v := EntryOf(SPACE, 0);
    var x := 0;
    while x < WIDTH
      invariant 0 <= x <= WIDTH
      invariant forall k :: 0 <= k < CELLS ==>
        mem[k] == if y * 80 <= k < y * 80 + x then v else old(mem[k])
    {
      mem[y * 80 + x] := v;
      x := x + 1;
    }
  }

  /** Rows 1..24 move up one row, in place, and the bottom row is blanked. */
  method ShiftRowsUp(mem: array<Entry>)
    requires mem.Length == CELLS
    modifies mem
    ensures mem[..] == MovedUp(old(mem[..]))
    ensures forall k :: 1920 <= k < 2000 ==> mem[k] == 0x20
  {
    var y := 0;
    while y < HEIGHT - 1
      invariant 0 <= y <= HEIGHT - 1
      invariant forall k :: 0 <= k < y * 80 ==> mem[k] == old(mem[k + 80])
      invariant forall k :: y * 80 <= k < CELLS ==> mem[k] == old(mem[k])
    {
      CopyRow(mem, y, y + 1);
      y := y + 1;
    }
    BlankRow(mem, y);
  }

  /** Rows 0..23 move down one row, in place and from the bottom, and row 0 is blanked. */
  method ShiftRowsDown(mem: array<Entry>)
    requires mem.Length == CELLS
    modifies mem
    ensures mem[..] == MovedDown(old(mem[..]))
    ensures forall k :: 0 <= k < 80 ==> mem[k] == 0x20
  {
    var y := HEIGHT - 2;
    while y >= 0
      invariant -1 <= y <= HEIGHT - 2
      invariant forall k :: (y + 2) * 80 <= k < CELLS ==> mem[k] == old(mem[k - 80])
      invariant forall k :: 0 <= k < (y + 2) * 80 ==> mem[k] == old(mem[k])
    {
      CopyRow(mem, y + 1, y);
      y := y - 1;
    }
    BlankRow(mem, 0);
  }

  class Video {
    const videomem: array<Entry>
    const pos: array<nat>
    var posHead: nat
    var color: Byte

    ghost predicate Valid()
      reads this, videomem, pos
    {
      Represents(videomem[..], pos[..], posHead)
    }

    ghost function Lines(): Screen
      requires Valid()
      reads this, videomem, pos
    {
      LinesOf(videomem[..], pos[..], posHead)
    }

    constructor (mem: array<Entry>)
      requires mem.Length == CELLS
      modifies mem
      ensures videomem == mem && Valid() && fresh(pos) && color == 0 && posHead == 0
      ensures forall k :: 0 <= k < 2000 ==> mem[k] == 0x20
      ensures Lines() == EMPTY
    {
      videomem := mem;
      pos := new nat[HEIGHT](_ => 0);
      posHead := 0;
      color := 0;
      new;
      Clear();
    }

    method Clear()
      requires videomem.Length == CELLS && pos.Length == HEIGHT
      modifies videomem, pos
      ensures Valid()
      ensures Lines() == EMPTY
      ensures forall k :: 0 <= k < 2000 ==> videomem[k] == 0x20
    {
      var y := 0;
      while y < HEIGHT
        invariant 0 <= y <= HEIGHT
        invariant forall k :: 0 <= k < y * 80 ==> videomem[k] == SPACE
      {
        BlankRow(videomem, y);
        y := y + 1;
      }
      for i := 0 to pos.Length
        modifies pos
        invariant forall k :: 0 <= k < i ==> pos[k] == 0
      {
        pos[i] := 0;
      }
      NoStrayCells(videomem[..], pos[..], posHead);
    }

    method NewLine()
      requires Valid()
      modifies `posHead, videomem, pos
      ensures Valid()
      ensures Lines() == Scroll(old(Lines()))
      ensures forall k :: 1920 <= k < 2000 ==> videomem[k] == 0x20
    {
      ghost var cells, ring, head := videomem[..], pos[..], posHead;
      TurnRing();
      ShiftRowsUp(videomem);
      ScrollShown(cells, ring, head, videomem[..], pos[..], posHead);
    }

    /** The head moves down by one and the new bottom line is empty. */
    method TurnRing()
      requires pos.Length == HEIGHT
      modifies `posHead, pos
      ensures posHead == (old(posHead) + 24) % 25 && pos[..] == CutTop(old(pos[..]), old(posHead))
    {
      posHead := (posHead + 24) % 25;
      pos[Slot(posHead, HEIGHT - 1)] := 0;
    }

    method DelLine()
      requires Valid()
      modifies `posHead, videomem
      ensures Valid()
      ensures Lines() == Pull(old(Lines()))
      ensures forall k :: 0 <= k < 80 ==> videomem[k] == 0x20
    {
      posHead := posHead + 1 % 25;
      ShiftRowsDown(videomem);
      PullRefines(old(videomem[..]), old(pos[..]), old(posHead));
    }

    method WriteEntry(v: Entry, x: nat, y: nat)
      requires videomem.Length == CELLS && x < WIDTH && y < HEIGHT
      modifies videomem
      ensures videomem[..] == old(videomem[..])[y * 80 + x := v]
    {
      videomem[y * 80 + x] := v;
    }

    /** The default branch of `putc`: store one character, wrapping a full line. */
    method Store(c: Byte)
      requires Valid()
      modifies `posHead, videomem, pos
      ensures Valid()
      ensures Lines() == Append(old(Lines()), EntryOf(c, color))
    {
      CursorIsLength(videomem[..], pos[..], posHead);
      if pos[Slot(posHead, HEIGHT - 1)] == WIDTH {
        NewLine();
        CursorIsLength(videomem[..], pos[..], posHead);
      }
      var cursor := pos[Slot(posHead, HEIGHT - 1)];
      BottomRowRefines(videomem[..], pos[..], posHead, cursor, EntryOf(c, color), cursor + 1);
      pos[Slot(posHead, HEIGHT - 1)] := cursor + 1;
      WriteEntry(EntryOf(c, color), cursor, HEIGHT - 1);
    }

    /** The backspace branch of `putc`. */
    method Backspace()
      requires Valid()
      modifies `posHead, videomem, pos
      ensures Valid()
      ensures Lines() == Erase(old(Lines()))
      ensures old(Lines())[24] != [] ==> videomem[1920 + |Lines()[24]|] == 0
    {
      CursorIsLength(videomem[..], pos[..], posHead);
      var cursor := pos[Slot(posHead, HEIGHT - 1)];
      if 0 < cursor <= WIDTH {
        BottomRowRefines(videomem[..], pos[..], posHead, cursor - 1, EntryOf(0, 0), cursor - 1);
        pos[Slot(posHead, HEIGHT - 1)] := cursor - 1;
        WriteEntry(EntryOf(0, 0), cursor - 1, HEIGHT - 1);
      } else {
        DelLine();
      }
    }

    /** One character: newline, backspace, tab or a character to store. */
    method Putc(c: Byte)
      requires Valid()
      modifies `posHead, videomem, pos
      ensures Valid()
      ensures Lines() == Show(old(Lines()), color, [c])
      decreases c == TAB, 1
    {
      if c == TAB {
        ShowTab(Lines(), color);
      } else {
        ShowOne(Lines(), color, c);
      }
      if c == NEWLINE {
        NewLine();
      } else if c == BACKSPACE {
        Backspace();
      } else if c == TAB {
        Tab();
      } else {
        Store(c);
      }
    }

    /** The tab branch of `putc`: four spaces. */
    method Tab()
      requires Valid()
      modifies `posHead, videomem, pos
      ensures Valid()
      ensures Lines() == Show(old(Lines()), color, Spaces(TAB_WIDTH))
      decreases true, 0
    {
      ghost var t := Lines();
      ghost var p := Spaces(TAB_WIDTH);
      for i := 0 to TAB_WIDTH
        invariant Valid()
        invariant Lines() == Show(t, color, p[0..i])
      {
        ShowNext(t, color, p, 0, i);
        Putc(SPACE);
      }
      assert p[0..TAB_WIDTH] == p;
    }

    method SetColor(fg: int, bg: int)
      requires 0 <= fg < 16 && 0 <= bg < 16
      modifies `color
      ensures color % 16 == fg && color / 16 == bg
    {
      color := fg + 16 * bg;
    }

    method Write(p: seq<Byte>, len: nat)
      requires Valid() && len <= |p|
      modifies `posHead, videomem, pos
      ensures Valid()
      ensures Lines() == Show(old(Lines()), color, p[..len])
    {
      ghost var t := Lines();
      for i := 0 to len
        invariant Valid()
        invariant Lines() == Show(t, color, p[0..i])
      {
        ShowNext(t, color, p, 0, i);
        Putc(p[i]);
      }
      assert p[0..len] == p[..len];
    }

    method WriteStr(p: seq<Byte>)
      requires Valid() && 0 in p
      modifies `posHead, videomem, pos
      ensures Valid()
      ensures Lines() == Show(old(Lines()), color, CText(p))
    {
      var n := Strlen(p);
      Write(p, n);
    }
  }
}
