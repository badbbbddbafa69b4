/**
  The terminal on its flat character buffer and the display (stuos/src/tty.c): every write
  leaves the screen as a full redraw would.
 */
module TerminalScreens {
  import opened Terminals

  /** Where cell (x, y) lies in the buffer. */
  function Index(x: nat, y: nat, w: nat): nat {
    x + w * y
  }

  lemma IndexInRange(x: nat, y: nat, w: nat, h: nat)
    requires x < w && y < h
    ensures Index(x, y, w) < w * h
  {
    RowsApart(y, h, w);
  }

  lemma {:induction false} RowsApart(y: nat, y': nat, w: nat)
    requires y < y'
    ensures w * y + w <= w * y'
    decreases y'
  {
    if y + 1 < y' {
      RowsApart(y, y' - 1, w);
    }
    assert w * y' == w * (y' - 1) + w;
  }

  /** Different cells lie at different places. */
  lemma IndexDistinct(x: nat, y: nat, x': nat, y': nat, w: nat)
    requires x < w && x' < w && (x != x' || y != y')
    ensures Index(x, y, w) != Index(x', y', w)
  {
    if y < y' {
      RowsApart(y, y', w);
    } else if y' < y {
      RowsApart(y', y, w);
    }
  }

  lemma ModOnce(a: nat, h: nat)
    requires 0 < h && a < 2 * h
    ensures a % h == if a < h then a else a - h
  {
    if a >= h {
      assert a == h * 1 + (a - h);
      DivIs(a, h, 1, a - h);
    } else {
      DivIs(a, h, 0, a);
    }
  }

  lemma DivIs(a: nat, h: nat, q: nat, r: nat)
    requires 0 < h && r < h && a == h * q + r
    ensures a % h == r
  {
    var d := a / h - q;
    assert h * d == r - a % h;
    Multiple(h, d);
  }

  lemma Multiple(h: nat, d: int)
    ensures d > 0 ==> h * d >= h
    ensures d < 0 ==> h * d + h <= 0
  {
    if d > 0 {
      assert h * (d - 1) >= 0;
    } else if d < 0 {
      assert h * (-d - 1) >= 0;
    }
  }

  lemma ShownStep(r: Row, x: nat, seen: bool)
    requires x < |r|
    ensures var now := seen || r[x] == NEWLINE;
            Shown(r[x..], seen) == [if now then BLANK else r[x]] + Shown(r[x + 1..], now)
  {
    assert r[x..][1..] == r[x + 1..];
  }

  lemma ShownEnd(r: Row, seen: bool)
    ensures Shown(r[|r|..], seen) == []
  {
  }

  class Terminal {
    const charsWidth: nat
    const charsHeight: nat
    const buffer: array<Char>
    var cursorX: nat
    var cursorY: nat
    var currentRun: nat
    var canonical: bool
    var allDirty: bool
    /** What the display shows. */
    var screen: seq<Row>
    /** The buffer, row by row. */
    ghost var rows: seq<Row>

    ghost function View(): Term
      reads this
    {
      Term(rows, charsWidth, cursorX, cursorY, currentRun)
    }

    /** Buffer and rows agree cell by cell. */
    ghost predicate Stored()
      reads this, buffer
    {
      && 0 < charsWidth && 0 < charsHeight
      && buffer.Length == charsWidth * charsHeight
      && |rows| == charsHeight && (forall y :: 0 <= y < charsHeight ==> |rows[y]| == charsWidth)
      && (forall x, y :: 0 <= x < charsWidth && 0 <= y < charsHeight ==>
            Index(x, y, charsWidth) < buffer.Length && buffer[Index(x, y, charsWidth)] == rows[y][x])
      && |screen| == charsHeight && (forall l :: 0 <= l < charsHeight ==> |screen[l]| == charsWidth)
    }

    /** The invariant, and a screen that a full redraw would leave as it is. */
    ghost predicate Valid()
      reads this, buffer
    {
      Stored() && View().Ok() && screen == View().Redrawn()
    }

    /** Halts on a cell outside the screen. */
    method IndexBuffer(x: nat, y: nat) returns (i: nat)
      requires x < charsWidth && y < charsHeight
      ensures i == Index(x, y, charsWidth)
    {
      i := x + charsWidth * y;
    }

    method ReadCell(x: nat, y: nat) returns (c: Char)
      requires Stored() && x < charsWidth && y < charsHeight
      ensures c == rows[y][x]
    {
      var i := IndexBuffer(x, y);
      c := buffer[i];
    }

    method WriteCell(x: nat, y: nat, c: Char)
      requires Stored() && x < charsWidth && y < charsHeight
      modifies buffer, this`rows
      ensures Stored() && rows == WithCell(old(rows), y, x, c)
    {
      hide Index;
      var i := IndexBuffer(x, y);
      buffer[i] := c;
      rows := WithCell(rows, y, x, c);
      forall x', y' | 0 <= x' < charsWidth && 0 <= y' < charsHeight
        ensures buffer[Index(x', y', charsWidth)] == rows[y'][x']
      {
        if x' != x || y' != y {
          IndexDistinct(x, y, x', y', charsWidth);
        }
      }
    }

    /** `memset` of one row. */
    method ClearRow(y: nat)
      requires Stored() && y < charsHeight
      modifies buffer, this`rows
      ensures Stored() && rows == old(rows)[y := BlankRow(charsWidth)]
    {
      var x := 0;
      while x < charsWidth
        invariant 0 <= x <= charsWidth && Stored()
        invariant forall k :: 0 <= k < charsHeight && k != y ==> rows[k] == old(rows)[k]
        invariant forall k :: 0 <= k < x ==> rows[y][k] == BLANK
      {
        WriteCell(x, y, BLANK);
        x := x + 1;
      }
      assert rows[y] == BlankRow(charsWidth);
      assert rows == old(rows)[y := BlankRow(charsWidth)];
    }

    /** Draw one character at a cell of the screen. */
    method BlitChar(c: Char, x: nat, line: nat)
      requires line < |screen| && x < |screen[line]|
      modifies this`screen
      ensures screen == WithCell(old(screen), line, x, c)
    {
      var r: Row := screen[line][x := c];
      screen := screen[line := r];
    }

    /** Draw a row of the buffer, blank from its first newline on. */
    method BlitRow(y: nat, line: nat)
      requires Stored() && y < charsHeight && line < charsHeight
      modifies this`screen
      ensures Stored() && screen == old(screen)[line := Shown(rows[y], false)]
    {
      hide Index, Shown;
      var rowHasSeenNewline := false;
      var x := 0;
      ghost var shown := Shown(rows[y], false);
      assert rows[y][0..] == rows[y];
      while x < charsWidth
        invariant 0 <= x <= charsWidth && Stored()
        invariant forall l :: 0 <= l < charsHeight && l != line ==> screen[l] == old(screen)[l]
        invariant screen[line][..x] + Shown(rows[y][x..], rowHasSeenNewline) == shown
      {
        ghost var seen := rowHasSeenNewline;
        var curr := ReadCell(x, y);
        if curr == NEWLINE {
          rowHasSeenNewline := true;
        }
        if rowHasSeenNewline {
          curr := BLANK;
        }
        ShownStep(rows[y], x, seen);
        ghost var before := screen[line];
        BlitChar(curr, x, line);
        assert screen[line][..x + 1] == before[..x] + [curr];
        x := x + 1;
      }
      ShownEnd(rows[y], rowHasSeenNewline);
      assert screen[line] == shown;
      assert screen == old(screen)[line := shown];
    }

    /** Redraw everything, or the one cell before the cursor. */
    method Blit()
      requires Stored() && cursorY < charsHeight && (!allDirty ==> 0 < cursorX <= charsWidth)
      modifies this`screen
      ensures Stored()
      ensures allDirty ==> screen == View().Redrawn()
      ensures !allDirty ==> screen == WithCell(old(screen), charsHeight - 1, cursorX - 1, rows[cursorY][cursorX - 1])
    {
      if !allDirty {
        var c := ReadCell(cursorX - 1, cursorY);
        BlitChar(c, cursorX - 1, charsHeight - 1);
        return;
      }
      var line := 0;
      while line < charsHeight
        invariant 0 <= line <= charsHeight && Stored()
        invariant forall l :: 0 <= l < line ==> screen[l] == Shown(rows[View().RowOfLine(l)], false)
      {
        ModOnce(line + cursorY + 1, charsHeight);
        var bufferY := (line + cursorY + 1) % charsHeight;
        BlitRow(bufferY, line);
        line := line + 1;
      }
      assert screen == View().Redrawn();
    }

    /** An empty terminal, drawn. */
    constructor (width: nat, height: nat, display: seq<Row>)
      requires 0 < width && 0 < height
      requires |display| == height && forall l :: 0 <= l < height ==> |display[l]| == width
      ensures Valid() && fresh(buffer) && charsWidth == width && charsHeight == height && canonical
      ensures cursorX == 0 && cursorY == 0 && currentRun == 0
      ensures screen == rows && forall l, x :: 0 <= l < height && 0 <= x < width ==> screen[l][x] == BLANK
    {
      charsWidth, charsHeight := width, height;
      buffer := new Char[width * height](_ => BLANK);
      cursorX, cursorY, currentRun, canonical, allDirty, screen := 0, 0, 0, true, true, display;
      rows := seq(height, _ => BlankRow(width));
      new;
      forall x, y | 0 <= x < width && 0 <= y < height
        ensures Index(x, y, width) < buffer.Length && buffer[Index(x, y, width)] == rows[y][x]
      {
        IndexInRange(x, y, width, height);
      }
      Blit();
    }

    method DoNewline()
      requires Stored() && cursorY < charsHeight
      modifies buffer, this`rows, this`cursorX, this`cursorY, this`allDirty
      ensures Stored() && allDirty && View() == old(View()).NewLine() && cursorX == 0 && cursorY < charsHeight
    {
      ModOnce(cursorY + 1, charsHeight);
      cursorY := (cursorY + 1) % charsHeight;
      cursorX := 0;
      ClearRow(cursorY);
      allDirty := true;
    }

    /** A character from a program or from the keyboard. */
    method WriteFromMultipleSources(c0: Char, isFromKeyboard: bool)
      requires Valid()
      modifies this, buffer
      ensures Valid() && canonical == old(canonical)
      ensures View() == old(View()).Written(c0, isFromKeyboard, old(canonical))
    {
      hide Stored, Term.Ok, Term.NewLine, Term.Redrawn, Term.Put;
      ghost var t := View();
      WrittenOk(t, c0, isFromKeyboard, canonical);
      var c := if c0 < 0 then QUESTION else c0;
      if c == BACKSPACE && isFromKeyboard && canonical {
        if currentRun == 0 {
          return;
        }
        TakeBack();
        return;
      }
      WriteChar(c, isFromKeyboard);
    }

    /** A character that takes a cell: into the buffer, and as much as needed onto the screen. */
    method WriteChar(c: Char, isFromKeyboard: bool)
      requires Valid() && c >= 0 && !(c == BACKSPACE && isFromKeyboard && canonical)
      modifies buffer, this`rows, this`cursorX, this`cursorY, this`currentRun, this`allDirty, this`screen
      ensures Stored() && View() == old(View()).Written(c, isFromKeyboard, canonical) && cursorY < charsHeight
      ensures screen == View().Redrawn()
    {
      hide Index, Term.ReachClear, Shown, BlankRow, Term.NewLine, Term.Redrawn, Term.Written;
      ghost var t := View();
      StartRow(t);
      Advance(c, isFromKeyboard);
      if !allDirty {
        OneCellEnough(t, c, currentRun);
      }
      Blit();
    }

    /** The character into its cell, and the cursor on; what has to be redrawn is noted. */
    method Advance(c: Char, isFromKeyboard: bool)
      requires Stored() && cursorX < charsWidth && cursorY < charsHeight && c >= 0
      requires !(c == BACKSPACE && isFromKeyboard && canonical)
      requires cursorX == 0 ==> View().(rows := rows[cursorY := BlankRow(charsWidth)]) == View()
      modifies buffer, this`rows, this`cursorX, this`cursorY, this`currentRun, this`allDirty
      ensures Stored() && View() == old(View()).Written(c, isFromKeyboard, canonical)
      ensures cursorY < charsHeight
      ensures !allDirty ==> c != NEWLINE && cursorX == old(cursorX) + 1 < charsWidth && cursorY == old(cursorY)
                            && View() == old(View()).Put(c).(cx := old(cursorX) + 1, run := currentRun)
    {
      hide Index, Term.NewLine, Term.Put, BlankRow;
      WriteAtCursor(c);
      if isFromKeyboard {
        currentRun := currentRun + 1;
      } else {
        currentRun := 0;
      }
      if c == NEWLINE {
        currentRun := 0;
        DoNewline();
      } else {
        cursorX := cursorX + 1;
        allDirty := false;
      }
      if cursorX == charsWidth {
        DoNewline();
      }
      ModOnce(cursorY, charsHeight);
      cursorY := cursorY % charsHeight;
    }

    method WriteAtCursor(c: Char)
      requires Stored() && cursorX < charsWidth && cursorY < charsHeight
      requires cursorX == 0 ==> View().(rows := rows[cursorY := BlankRow(charsWidth)]) == View()
      modifies buffer, this`rows
      ensures Stored() && cursorY < |old(rows)| && cursorX < |old(rows)[cursorY]| && View() == old(View()).Put(c)
    {
      hide Index, BlankRow;
      if cursorX == 0 {
        ClearRow(cursorY);
      }
      WriteCell(cursorX, cursorY, c);
    }

    /** The backspace key. */
    method TakeBack()
      requires Valid() && currentRun > 0
      modifies this, buffer
      ensures Stored() && canonical == old(canonical)
      ensures View() == old(View()).Backspaced() && cursorY < charsHeight && screen == View().Redrawn()
    {
      hide Index, Term.ReachClear, Shown;
      currentRun := currentRun - 1;
      if cursorX == 0 {
        if cursorY == 0 {
          cursorY := charsHeight - 1;
        } else {
          cursorY := cursorY - 1;
        }
        cursorX := charsWidth - 1;
      } else {
        cursorX := cursorX - 1;
      }
      WriteCell(cursorX, cursorY, BLANK);
      allDirty := true;
      Blit();
    }
  }
}
