/**
 The abstract text terminal: 25 lines of at most 80 entries, with no ring buffer
 and no framebuffer. `Video` is proved to refine it; the theorems about whole
 strings (window on a transcript, backspace as undo) are proved here.
 */
module Terminal {
  import opened Bytes

  const WIDTH := 80
  const HEIGHT := 25

  const NEWLINE: Byte := 10
  const BACKSPACE: Byte := 8
  const TAB: Byte := 9
  const SPACE: Byte := 32

  const TAB_WIDTH := 4

  /** A VGA cell: character in the low byte, colour attribute in the high byte. */
  type Entry = x: int | 0 <= x < 0x1_0000
  type Line = seq<Entry>

  function EntryOf(c: Byte, color: Byte): Entry {
    c + 0x100 * color
  }

  /** The two cell contents that show as an empty cell: a space or a NUL character. */
  predicate IsBlank(e: Entry) {
    e % 0x100 == SPACE || e % 0x100 == 0
  }

  type Screen = t: seq<Line> | IsScreen(t) witness EMPTY

  predicate IsScreen(t: seq<Line>) {
    |t| == HEIGHT && forall r :: 0 <= r < HEIGHT ==> |t[r]| <= WIDTH
  }

  const EMPTY: seq<Line> := seq(HEIGHT, _ => [])

  function Blanks(n: nat): Line {
    seq(n, _ => SPACE)
  }

  function Scroll(t: Screen): Screen {
    t[1..] + [[]]
  }

  /** Every line moves down one row. The length kept for the bottom row reappears at
      the top, over cells that have been blanked. */
  function Pull(t: Screen): Screen {
    [Blanks(|t[HEIGHT - 1]|)] + t[..HEIGHT - 1]
  }

  function Append(t: Screen, e: Entry): Screen {
    var u := if |t[HEIGHT - 1]| == WIDTH then Scroll(t) else t;
    u[HEIGHT - 1 := u[HEIGHT - 1] + [e]]
  }

  function Erase(t: Screen): Screen {
    if |t[HEIGHT - 1]| > 0 then
      t[HEIGHT - 1 := t[HEIGHT - 1][..|t[HEIGHT - 1]| - 1]]
    else
      Pull(t)
  }

  /** One character, with `\t` already expanded into spaces. */
  function PutPlain(t: Screen, color: Byte, c: Byte): Screen {
    if c == NEWLINE then Scroll(t)
    else if c == BACKSPACE then Erase(t)
    else Append(t, EntryOf(c, color))
  }

  function RunPlain(t: Screen, color: Byte, s: seq<Byte>): Screen
    decreases |s|
  {
    if s == [] then t else RunPlain(PutPlain(t, color, s[0]), color, s[1..])
  }

  function Spaces(n: nat): (s: seq<Byte>)
    ensures BACKSPACE !in s
  {
    seq(n, _ => SPACE)
  }

  function Expand(s: seq<Byte>): seq<Byte>
    decreases |s|
  {
    if s == [] then []
    else (if s[0] == TAB then Spaces(TAB_WIDTH) else [s[0]]) + Expand(s[1..])
  }

  /** What showing the string `s` does to the screen. */
  function Show(t: Screen, color: Byte, s: seq<Byte>): Screen {
    RunPlain(t, color, Expand(s))
  }

  // ---------- running over concatenations ----------

  lemma {:induction false} RunPlainConcat(t: Screen, color: Byte, a: seq<Byte>, b: seq<Byte>)
    ensures RunPlain(t, color, a + b) == RunPlain(RunPlain(t, color, a), color, b)
    decreases |a|
  {
    if a == [] {
      assert a + b == b;
    } else {
      assert (a + b)[1..] == a[1..] + b;
      RunPlainConcat(PutPlain(t, color, a[0]), color, a[1..], b);
    }
  }

  lemma {:induction false} ExpandConcat(a: seq<Byte>, b: seq<Byte>)
    ensures Expand(a + b) == Expand(a) + Expand(b)
    decreases |a|
  {
    if a == [] {
      assert a + b == b;
    } else {
      assert (a + b)[1..] == a[1..] + b;
      ExpandConcat(a[1..], b);
    }
  }

  /** Showing two strings one after the other is showing their concatenation. */
  lemma ShowConcat(t: Screen, color: Byte, a: seq<Byte>, b: seq<Byte>)
    ensures Show(t, color, a + b) == Show(Show(t, color, a), color, b)
  {
    ExpandConcat(a, b);
    RunPlainConcat(t, color, Expand(a), Expand(b));
  }

  lemma ShowNext(t: Screen, color: Byte, p: seq<Byte>, start: nat, i: nat)
    requires start <= i < |p|
    ensures Show(t, color, p[start..i + 1]) == Show(Show(t, color, p[start..i]), color, [p[i]])
  {
    assert p[start..i + 1] == p[start..i] + [p[i]];
    ShowConcat(t, color, p[start..i], [p[i]]);
  }

  lemma ShowOne(t: Screen, color: Byte, c: Byte)
    requires c != TAB
    ensures Show(t, color, [c]) == PutPlain(t, color, c)
  {
    var s := [c];
    assert s[1..] == [];
    assert Expand(s[1..]) == [];
    assert Expand(s) == s;
    assert RunPlain(t, color, s) == RunPlain(PutPlain(t, color, c), color, []);
  }

  lemma {:induction false} ExpandSpaces(n: nat)
    ensures Expand(Spaces(n)) == Spaces(n)
  {
    if n > 0 {
      ExpandSpaces(n - 1);
      assert Spaces(n) == Spaces(n - 1) + [SPACE];
      ExpandConcat(Spaces(n - 1), [SPACE]);
      assert [SPACE][1..] == [];
      assert Expand([SPACE]) == [SPACE];
    }
  }

  /** A tab shows as four spaces. */
  lemma ShowTab(t: Screen, color: Byte)
    ensures Show(t, color, [TAB]) == Show(t, color, Spaces(TAB_WIDTH))
  {
    var s := [TAB];
    assert s[1..] == [];
    assert Expand(s[1..]) == [];
    assert Expand(s) == Spaces(TAB_WIDTH);
    ExpandSpaces(TAB_WIDTH);
  }

  // ---------- what each character code does to the 25 lines ----------

  /** Any code but 8, 9 and 10 ends the bottom line with a cell that has the code in its low
      byte and the colour in its high byte; a line of 80 cells moves up first. */
  lemma CharacterShown(t: Screen, color: Byte, c: Byte)
    requires c != 8 && c != 9 && c != 10
    ensures var u := Show(t, color, [c]); var full := |t[24]| == 80;
      && |u[24]| > 0
      && u[24][|u[24]| - 1] % 0x100 == c
      && u[24][|u[24]| - 1] / 0x100 == color
      && u[24][..|u[24]| - 1] == (if full then [] else t[24])
      && forall r :: 0 <= r < 24 ==> u[r] == if full then t[r + 1] else t[r]
  {
    ShowOne(t, color, c);
  }

  /** Code 10 moves every line up one row and leaves the bottom line empty. */
  lemma NewlineShown(t: Screen, color: Byte)
    ensures Show(t, color, [10]) == t[1..25] + [[]]
  {
    ShowOne(t, color, 10);
    assert t[1..25] == t[1..];
  }

  /** Code 8 drops the last cell of the bottom line; if there is none, every line moves
      down one row below an empty one. */
  lemma BackspaceShown(t: Screen, color: Byte)
    ensures Show(t, color, [8])
            == if t[24] == [] then [[]] + t[..24] else t[..24] + [t[24][..|t[24]| - 1]]
  {
    ShowOne(t, color, 8);
    assert Blanks(0) == [];
  }

  /** Code 9 shows as four characters of code 32. */
  lemma TabShown(t: Screen, color: Byte)
    ensures Show(t, color, [9]) == Show(t, color, [32, 32, 32, 32])
  {
    ShowTab(t, color);
    assert Spaces(TAB_WIDTH) == [32, 32, 32, 32];
  }

  // ---------- the screen is a window on an unbounded transcript ----------

  /** One character written at the end of a transcript: nothing scrolls, a full last
      line opens a new one. */
  function Continue(doc: seq<Line>, color: Byte, c: Byte): (d: seq<Line>)
    requires |doc| > 0
    ensures |d| >= |doc|
  {
    var last := doc[|doc| - 1];
    if c == NEWLINE then doc + [[]]
    else if |last| == WIDTH then doc + [[EntryOf(c, color)]]
    else doc[|doc| - 1 := last + [EntryOf(c, color)]]
  }

  function Transcribe(doc: seq<Line>, color: Byte, s: seq<Byte>): (d: seq<Line>)
    requires |doc| > 0
    ensures |d| >= |doc|
    decreases |s|
  {
    if s == [] then doc
    else Transcribe(Continue(doc, color, s[0]), color, s[1..])
  }

  function Flatten(doc: seq<Line>): Line
    decreases |doc|
  {
    if doc == [] then [] else Flatten(doc[..|doc| - 1]) + doc[|doc| - 1]
  }

  /** The entries a string without backspaces stores, in order. */
  function Ink(s: seq<Byte>, color: Byte): Line
    decreases |s|
  {
    if s == [] then []
    else (if s[0] == NEWLINE then [] else [EntryOf(s[0], color)]) + Ink(s[1..], color)
  }

  /** The transcript loses and reorders nothing: its text is the old text followed by
      every character of `s` that is not a newline. */
  lemma {:induction false} TranscriptKeepsText(doc: seq<Line>, color: Byte, s: seq<Byte>)
    requires |doc| > 0
    ensures Flatten(Transcribe(doc, color, s)) == Flatten(doc) + Ink(s, color)
    decreases |s|
  {
    if s != [] {
      var next := Continue(doc, color, s[0]);
      var n := |doc|;
      assert next[..n - 1] == doc[..n - 1];
      if |next| == n + 1 {
        assert next[..n] == doc;
      }
      TranscriptKeepsText(next, color, s[1..]);
    }
  }

  predicate Shows(doc: seq<Line>, t: Screen) {
    |doc| >= HEIGHT && doc[|doc| - HEIGHT..] == t
  }

  lemma WindowStep(doc: seq<Line>, t: Screen, color: Byte, c: Byte)
    requires Shows(doc, t) && c != BACKSPACE
    ensures Shows(Continue(doc, color, c), PutPlain(t, color, c))
  {
    var n := |doc|;
    var next := Continue(doc, color, c);
    var u := PutPlain(t, color, c);
    assert t[HEIGHT - 1] == doc[n - 1];
    assert forall r :: 0 <= r < HEIGHT ==> t[r] == doc[n - HEIGHT + r];
    forall r | 0 <= r < HEIGHT
      ensures u[r] == next[|next| - HEIGHT + r]
    {
    }
  }

  lemma {:induction false} WindowRun(doc: seq<Line>, t: Screen, color: Byte, s: seq<Byte>)
    requires Shows(doc, t) && BACKSPACE !in s
    ensures Shows(Transcribe(doc, color, s), RunPlain(t, color, s))
    decreases |s|
  {
    if s != [] {
      WindowStep(doc, t, color, s[0]);
      WindowRun(Continue(doc, color, s[0]), PutPlain(t, color, s[0]), color, s[1..]);
    }
  }

  /** Whatever is written (without backspaces), the screen shows the last 25 lines of
      the transcript that continues the old screen. */
  lemma WindowOnTranscript(t: Screen, color: Byte, s: seq<Byte>)
    requires BACKSPACE !in s
    ensures Shows(Transcribe(t, color, Expand(s)), Show(t, color, s))
  {
    assert t[|t| - HEIGHT..] == t;
    ExpandHasNoBackspace(s);
    WindowRun(t, t, color, Expand(s));
  }

  lemma {:induction false} ExpandHasNoBackspace(s: seq<Byte>)
    requires BACKSPACE !in s
    ensures BACKSPACE !in Expand(s)
    decreases |s|
  {
    if s != [] {
      ExpandHasNoBackspace(s[1..]);
    }
  }

  // ---------- backspace undoes whole strings ----------

  /** Lines scrolled and characters stored by one character. */
  function ScrollsBy(t: Screen, c: Byte): nat {
    if c == NEWLINE || (c != BACKSPACE && |t[HEIGHT - 1]| == WIDTH) then 1 else 0
  }

  function StoredBy(c: Byte): nat {
    if c == NEWLINE || c == BACKSPACE then 0 else 1
  }

  /** Number of lines that scroll off the top while `s` is shown. */
  function Scrolls(t: Screen, color: Byte, s: seq<Byte>): nat
    decreases |s|
  {
    if s == [] then 0 else ScrollsBy(t, s[0]) + Scrolls(PutPlain(t, color, s[0]), color, s[1..])
  }

  /** Number of characters stored in cells while `s` is shown. */
  function Stored(s: seq<Byte>): nat
    decreases |s|
  {
    if s == [] then 0 else StoredBy(s[0]) + Stored(s[1..])
  }

  function Backspaces(n: nat): seq<Byte> {
    seq(n, _ => BACKSPACE)
  }

  /** The screen whose first `n` lines are empty and whose other lines are those of `t`. */
  function Forget(t: Screen, n: nat): Screen {
    seq(HEIGHT, r requires 0 <= r < HEIGHT => if r < n then [] else t[r])
  }

  lemma EraseAfterAppend(t: Screen, e: Entry, n: nat)
    requires |t[HEIGHT - 1]| < WIDTH
    ensures Erase(Forget(Append(t, e), n)) == Forget(t, n)
  {
    var u := Forget(Append(t, e), n);
    if n < HEIGHT {
      assert u[HEIGHT - 1] == t[HEIGHT - 1] + [e];
      assert (t[HEIGHT - 1] + [e])[..|t[HEIGHT - 1]|] == t[HEIGHT - 1];
    } else {
      assert u == Forget(t, n);
    }
  }

  lemma EraseAfterScroll(t: Screen, n: nat)
    ensures Erase(Forget(Scroll(t), n)) == Forget(t, n + 1)
  {
    var u := Forget(Scroll(t), n);
    assert u[HEIGHT - 1] == [];
  }

  /** `m` backspaces. */
  function Erased(t: Screen, m: nat): Screen
    decreases m
  {
    if m == 0 then t else Erased(Erase(t), m - 1)
  }

  lemma {:induction false} BackspacesErase(t: Screen, color: Byte, m: nat)
    ensures RunPlain(t, color, Backspaces(m)) == Erased(t, m)
    decreases m
  {
    if m > 0 {
      assert Backspaces(m)[1..] == Backspaces(m - 1);
      BackspacesErase(Erase(t), color, m - 1);
    }
  }

  lemma {:induction false} ErasedSum(t: Screen, m: nat, k: nat)
    ensures Erased(Erased(t, m), k) == Erased(t, m + k)
    decreases m
  {
    if m > 0 {
      ErasedSum(Erase(t), m - 1, k);
    }
  }

  lemma UndoFirst(t: Screen, color: Byte, c: Byte, after: Screen, m: nat, n: nat)
    requires c != BACKSPACE && Erased(after, m) == Forget(PutPlain(t, color, c), n)
    ensures Erased(after, m + StoredBy(c) + ScrollsBy(t, c)) == Forget(t, n + ScrollsBy(t, c))
  {
    UndoOne(t, color, c, n);
    ErasedSum(after, m, StoredBy(c) + ScrollsBy(t, c));
  }

  lemma {:induction false} ErasesUndo(t: Screen, color: Byte, s: seq<Byte>)
    requires BACKSPACE !in s
    ensures Erased(RunPlain(t, color, s), Stored(s) + Scrolls(t, color, s)) == Forget(t, Scrolls(t, color, s))
    decreases |s|
  {
    if s == [] {
      assert Forget(t, 0) == t;
    } else {
      var c, rest := s[0], s[1..];
      var u := PutPlain(t, color, c);
      var n := Scrolls(u, color, rest);
      ErasesUndo(u, color, rest);
      UndoFirst(t, color, c, RunPlain(u, color, rest), Stored(rest) + n, n);
    }
  }

  lemma UndoOne(t: Screen, color: Byte, c: Byte, n: nat)
    requires c != BACKSPACE
    ensures Erased(Forget(PutPlain(t, color, c), n), StoredBy(c) + ScrollsBy(t, c)) == Forget(t, n + ScrollsBy(t, c))
  {
    var e, v := EntryOf(c, color), Forget(PutPlain(t, color, c), n);
    assert Erased(v, 1) == Erase(v) && Erased(v, 2) == Erase(Erase(v));
    if c == NEWLINE {
      EraseAfterScroll(t, n);
    } else if |t[HEIGHT - 1]| == WIDTH {
      EraseAfterAppend(Scroll(t), e, n);
      EraseAfterScroll(t, n);
    } else {
      EraseAfterAppend(t, e, n);
    }
  }

  lemma {:induction false} ExpandBackspaces(n: nat)
    ensures Expand(Backspaces(n)) == Backspaces(n)
  {
    if n > 0 {
      assert Backspaces(n)[1..] == Backspaces(n - 1);
      ExpandBackspaces(n - 1);
    }
  }

  lemma ShowBackspaces(t: Screen, color: Byte, m: nat, end: Screen)
    requires Erased(t, m) == end
    ensures Show(t, color, Backspaces(m)) == end
  {
    ExpandBackspaces(m);
    BackspacesErase(t, color, m);
  }

  lemma UndoShown(t: Screen, color: Byte, s: seq<Byte>)
    requires BACKSPACE !in s
    ensures var n := Scrolls(t, color, s);
      Show(RunPlain(t, color, s), color, Backspaces(Stored(s) + n)) == Forget(t, n)
  {
    var n := Scrolls(t, color, s);
    ErasesUndo(t, color, s);
    ShowBackspaces(RunPlain(t, color, s), color, Stored(s) + n, Forget(t, n));
  }

  /** After any string without backspaces, as many backspaces as characters stored plus
      lines scrolled bring the screen back, save for the lines that scrolled away. */
  lemma BackspacesUndo(t: Screen, color: Byte, s: seq<Byte>)
    requires BACKSPACE !in s
    ensures var n := Scrolls(t, color, Expand(s));
      Show(Show(t, color, s), color, Backspaces(Stored(Expand(s)) + n)) == Forget(t, n)
  {
    ExpandHasNoBackspace(s);
    UndoShown(t, color, Expand(s));
  }
}
