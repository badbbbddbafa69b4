/**
  The terminal's cell buffer: a ring of rows, the cursor, the run of keyboard input that may
  be taken back, and the repaint that usually touches one cell (stuos/src/tty.c). The
  screen is a grid of characters.
 */
module Terminals {

  /** A C char is signed. */
  type Char = c: int | -128 <= c < 128

  const BLANK: Char := 32
  const NEWLINE: Char := 10
  const BACKSPACE: Char := 8
  const QUESTION: Char := 63

  type Row = seq<Char>

  predicate NoNewline(r: Row) {
    forall x :: 0 <= x < |r| ==> r[x] != NEWLINE
  }

  function BlankRow(w: nat): (r: Row)
    ensures |r| == w && forall x :: 0 <= x < w ==> r[x] == BLANK
  {
    if w == 0 then [] else BlankRow(w - 1) + [BLANK]
  }

  /** The row above, round the top of the ring. */
  function Above(y: nat, h: nat): nat
    requires y < h
  {
    if y == 0 then h - 1 else y - 1
  }

  function Below(y: nat, h: nat): nat
    requires y < h
  {
    if y + 1 == h then 0 else y + 1
  }

  function WithCell(rows: seq<Row>, y: nat, x: nat, c: Char): seq<Row>
    requires y < |rows| && x < |rows[y]|
  {
    var r: Row := rows[y][x := c];
    rows[y := r]
  }

  /** The ring of rows, the cursor, and how many characters before it may be taken back. */
  datatype Term = Term(rows: seq<Row>, w: nat, cx: nat, cy: nat, run: nat) {

    ghost predicate Shaped() {
      && 0 < w && 0 < |rows| && cx < w && cy < |rows|
      && forall y :: 0 <= y < |rows| ==> |rows[y]| == w
    }

    /**
      The rows `n` characters reach back to, beyond the cursor's own row, hold no newline.
     */
    ghost predicate ReachClear(y: nat, n: int)
      requires 0 < w && y < |rows|
      decreases n
    {
      n <= 0 || (NoNewline(rows[Above(y, |rows|)]) && ReachClear(Above(y, |rows|), n - w))
    }

    ghost predicate Ok() {
      && Shaped()
      && NoNewline(rows[cy])
      && (forall x :: cx <= x < w ==> rows[cy][x] == BLANK)
      && ReachClear(cy, run - cx)
    }

    /** Which row the screen shows on a line: the cursor's row is at the bottom. */
    function RowOfLine(line: nat): nat
      requires cy < |rows| && line < |rows|
    {
      var y := line + cy + 1;
      if y < |rows| then y else y - |rows|
    }

    /** The screen after a full redraw. */
    function Redrawn(): (screen: seq<Row>)
      requires cy < |rows|
      ensures |screen| == |rows| && forall l :: 0 <= l < |rows| ==> screen[l] == Shown(rows[RowOfLine(l)], false)
    {
      seq(|rows|, l requires 0 <= l < |rows| => Shown(rows[RowOfLine(l)], false))
    }

    function Put(c: Char): Term
      requires cy < |rows| && cx < |rows[cy]|
    {
      this.(rows := WithCell(rows, cy, cx, c))
    }

    function NewLine(): Term
      requires cy < |rows|
    {
      var y := Below(cy, |rows|);
      this.(rows := rows[y := BlankRow(w)], cx := 0, cy := y)
    }

    /** One character taken back, going up a row from the start of one. */
    function Backspaced(): Term
      requires Shaped() && run > 0
    {
      var t := if cx == 0 then this.(cx := w - 1, cy := Above(cy, |rows|), run := run - 1)
               else this.(cx := cx - 1, run := run - 1);
      t.Put(BLANK)
    }

    /** What writing a character does. */
    function Written(c0: Char, fromKeyboard: bool, canonical: bool): Term
      requires Shaped()
    {
      var c := if c0 < 0 then QUESTION else c0;
      if c == BACKSPACE && fromKeyboard && canonical then
        if run == 0 then this else Backspaced()
      else
        var s := if cx == 0 then this.(rows := rows[cy := BlankRow(w)]) else this;
        var t := s.Put(c);
        if c == NEWLINE then t.(run := 0).NewLine()
        else
          var u := t.(cx := cx + 1, run := if fromKeyboard then run + 1 else 0);
          if u.cx == w then u.NewLine() else u
    }
  }

  /** A row as drawn: blank from its first newline on. */
  function Shown(r: Row, seen: bool): (s: Row)
    ensures |s| == |r|
    ensures !seen && NoNewline(r) ==> s == r
  {
    if r == [] then []
    else
      var now := seen || r[0] == NEWLINE;
      [if now then BLANK else r[0]] + Shown(r[1..], now)
  }

  // --- The invariant ---

  /** Rows may change as long as none gets a newline. */
  lemma {:induction false} ReachKept(t: Term, t': Term, y: nat, n: int)
    requires 0 < t.w == t'.w && y < |t.rows| == |t'.rows| && t.ReachClear(y, n)
    requires forall i :: 0 <= i < |t.rows| && NoNewline(t.rows[i]) ==> NoNewline(t'.rows[i])
    ensures t'.ReachClear(y, n)
    decreases n
  {
    if n > 0 {
      ReachKept(t, t', Above(y, |t.rows|), n - t.w);
    }
  }

  lemma BackspacedOk(t: Term)
    requires t.Ok() && t.run > 0
    ensures t.Backspaced().Ok()
  {
    var t' := t.Backspaced();
    if t.cx == 0 {
      ReachKept(t, t', Above(t.cy, |t.rows|), t.run - t.w);
    } else {
      ReachKept(t, t', t.cy, t.run - t.cx);
    }
  }

  lemma NewLineOk(t: Term)
    requires 0 < t.w && 0 < |t.rows| && t.cy < |t.rows| && forall y :: 0 <= y < |t.rows| ==> |t.rows[y]| == t.w
    requires t.run > 0 ==> NoNewline(t.rows[t.cy]) && t.ReachClear(t.cy, t.run - t.w)
    ensures t.NewLine().Ok()
  {
    var t' := t.NewLine();
    assert Above(t'.cy, |t.rows|) == t.cy;
    if t.run > 0 {
      ReachKept(t, t', t.cy, t.run - t.w);
    }
  }

  /** The cursor stays in range, cells from it on are blank, and what can be taken back crosses no newline. */
  lemma WrittenOk(t: Term, c: Char, fromKeyboard: bool, canonical: bool)
    requires t.Ok()
    ensures t.Written(c, fromKeyboard, canonical).Ok()
  {
    var d := if c < 0 then QUESTION else c;
    if d == BACKSPACE && fromKeyboard && canonical {
      if t.run > 0 {
        BackspacedOk(t);
      }
    } else {
      StartRow(t);
      CharWritten(t, d, fromKeyboard);
    }
  }

  /** Clearing a row at whose start the cursor stands changes nothing: it is blank. */
  lemma StartRow(t: Term)
    requires t.Ok()
    ensures t.cx == 0 ==> t.(rows := t.rows[t.cy := BlankRow(t.w)]) == t
  {
    if t.cx == 0 {
      assert t.rows[t.cy] == BlankRow(t.w);
      assert t.rows[t.cy := BlankRow(t.w)] == t.rows;
    }
  }

  lemma CharWritten(t: Term, d: Char, fromKeyboard: bool)
    requires t.Ok() && d >= 0
    ensures var u := t.Put(d);
            && (d == NEWLINE ==> u.(run := 0).NewLine().Ok())
            && (d != NEWLINE ==>
                  var v := u.(cx := t.cx + 1, run := if fromKeyboard then t.run + 1 else 0);
                  if v.cx == t.w then v.NewLine().Ok() else v.Ok())
  {
    var u := t.Put(d);
    if d == NEWLINE {
      NewLineOk(u.(run := 0));
    } else {
      var v := u.(cx := t.cx + 1, run := if fromKeyboard then t.run + 1 else 0);
      if v.run > 0 {
        ReachKept(t, v, t.cy, t.run - t.cx);
      }
      if v.cx == t.w {
        NewLineOk(v);
      }
    }
  }

  function Writes(t: Term, keys: seq<(Char, bool)>, canonical: bool): Term
    requires t.Ok()
    decreases |keys|
  {
    if keys == [] then t
    else
      WrittenOk(t, keys[0].0, keys[0].1, canonical);
      Writes(t.Written(keys[0].0, keys[0].1, canonical), keys[1..], canonical)
  }

  /** The invariant over any run of output and input. */
  lemma {:induction false} WritesOk(t: Term, keys: seq<(Char, bool)>, canonical: bool)
    requires t.Ok()
    ensures Writes(t, keys, canonical).Ok()
    decreases |keys|
  {
    hide Term.Written;
    if keys != [] {
      WrittenOk(t, keys[0].0, keys[0].1, canonical);
      WritesOk(t.Written(keys[0].0, keys[0].1, canonical), keys[1..], canonical);
    }
  }

  // --- The one-cell repaint ---

  /** A plain character inside a row: repainting its cell alone gives the full redraw. */
  lemma OneCellEnough(t: Term, c: Char, run: nat)
    requires t.Ok() && c != NEWLINE
    ensures var t' := t.Put(c).(cx := t.cx + 1, run := run);
            var last := |t.rows| - 1;
            t'.Redrawn() == WithCell(t.Redrawn(), last, t.cx, c)
  {
    var t' := t.Put(c).(cx := t.cx + 1, run := run);
    var last := |t.rows| - 1;
    assert t.RowOfLine(last) == t.cy;
    forall l | 0 <= l < |t.rows|
      ensures t'.Redrawn()[l] == WithCell(t.Redrawn(), last, t.cx, c)[l]
    {
      if l == last {
        assert NoNewline(t'.rows[t.cy]);
      } else {
        assert t.RowOfLine(l) != t.cy;
      }
    }
  }
}
