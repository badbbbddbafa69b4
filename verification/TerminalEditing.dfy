/**
  What typing and taking back come to on the terminal (stuos/src/tty.c): the backspace key
  takes back what was typed since a program last wrote or a line was ended, and nothing else.
 */
module TerminalEditing {
  import opened Terminals

  /** The key that takes back. */
  predicate IsBackspace(key: (Char, bool), canonical: bool) {
    key.0 == BACKSPACE && key.1 && canonical
  }

  /** What the cell shows for a character. */
  function Glyph(c: Char): Char {
    if c < 0 then QUESTION else c
  }

  // --- One character ---

  /**
    A character goes into the cursor's cell. It moves the cursor one cell on or, at the end of
    a row and for a newline, to the start of the next row of the ring, which is cleared. No
    other cell changes.
   */
  lemma CharacterShown(t: Term, c: Char, fromKeyboard: bool, canonical: bool)
    requires t.Ok() && !IsBackspace((c, fromKeyboard), canonical)
    ensures var u := t.Written(c, fromKeyboard, canonical);
            var scrolls, next := c == NEWLINE || t.cx + 1 == t.w, if t.cy + 1 == |t.rows| then 0 else t.cy + 1;
            && u.Ok() && u.w == t.w && |u.rows| == |t.rows|
            && u.cx == (if scrolls then 0 else t.cx + 1) && u.cy == (if scrolls then next else t.cy)
            && u.run == (if fromKeyboard && c != NEWLINE then t.run + 1 else 0)
            && forall y, x :: 0 <= y < |t.rows| && 0 <= x < t.w ==>
                 u.rows[y][x] == if scrolls && y == next then BLANK
                                 else if y == t.cy && x == t.cx then Glyph(c)
                                 else t.rows[y][x]
  {
    WrittenOk(t, c, fromKeyboard, canonical);
    StartRow(t);
  }

  /** A line ended or filled moves the screen up by one line. */
  lemma ScreenScrolls(t: Term)
    requires t.Shaped()
    ensures t.NewLine().Redrawn() == t.Redrawn()[1..] + [BlankRow(t.w)]
  {
    var u, h := t.NewLine(), |t.rows|;
    BlankShown(t.w);
    forall l | 0 <= l < h
      ensures u.Redrawn()[l] == (t.Redrawn()[1..] + [BlankRow(t.w)])[l]
    {
      if l + 1 < h {
        assert u.RowOfLine(l) == t.RowOfLine(l + 1) != u.cy;
      } else {
        assert u.RowOfLine(l) == u.cy;
      }
    }
  }

  lemma {:induction false} ShownIs(r: Row, seen: bool, x: nat)
    requires x < |r|
    ensures Shown(r, seen)[x] == if seen || NEWLINE in r[..x + 1] then BLANK else r[x]
  {
    assert r[..x + 1] == [r[0]] + r[1..][..x];
    if x > 0 {
      ShownIs(r[1..], seen || r[0] == NEWLINE, x - 1);
    }
  }

  lemma BlankShown(w: nat)
    ensures Shown(BlankRow(w), false) == BlankRow(w)
  {
  }

  // --- Taking back ---

  /** What a program wrote, and a line that was ended, cannot be taken back. */
  lemma StaysPut(t: Term, c: Char, fromKeyboard: bool, canonical: bool)
    requires t.Ok() && (!fromKeyboard || c == NEWLINE)
    ensures t.Written(c, fromKeyboard, canonical).Ok()
    ensures t.Written(c, fromKeyboard, canonical).Written(BACKSPACE, true, true)
            == t.Written(c, fromKeyboard, canonical)
  {
    CharacterShown(t, c, fromKeyboard, canonical);
  }

  /**
    A backspace takes back what was just typed, exactly: but for the row that was cleared, if
    the character was the last of its row.
   */
  lemma BackspaceUndoes(t: Term, c: Char)
    requires t.Ok() && c != NEWLINE && c != BACKSPACE
    ensures t.Written(c, true, true).Ok()
    ensures t.Written(c, true, true).Written(BACKSPACE, true, true)
            == if t.cx + 1 < t.w then t else t.(rows := t.rows[Below(t.cy, |t.rows|) := BlankRow(t.w)])
  {
    CharacterShown(t, c, true, true);
    var u := t.Written(c, true, true);
    var v := u.Written(BACKSPACE, true, true);
    var r := if t.cx + 1 < t.w then t.rows else t.rows[Below(t.cy, |t.rows|) := BlankRow(t.w)];
    forall y | 0 <= y < |r|
      ensures v.rows[y] == r[y]
    {
      assert forall x :: 0 <= x < t.w ==> v.rows[y][x] == r[y][x];
    }
    assert v.rows == r;
  }

  // --- Whole runs ---

  function Front(keys: seq<(Char, bool)>): seq<(Char, bool)>
    requires keys != []
  {
    keys[..|keys| - 1]
  }

  function Last(keys: seq<(Char, bool)>): (Char, bool)
    requires keys != []
  {
    keys[|keys| - 1]
  }

  lemma {:induction false} WritesLast(t: Term, keys: seq<(Char, bool)>, canonical: bool)
    requires t.Ok() && keys != []
    ensures Writes(t, Front(keys), canonical).Ok()
    ensures Writes(t, keys, canonical)
            == Writes(t, Front(keys), canonical).Written(Last(keys).0, Last(keys).1, canonical)
    decreases |keys|
  {
    hide Term.Written;
    WritesOk(t, Front(keys), canonical);
    WrittenOk(t, keys[0].0, keys[0].1, canonical);
    if |keys| > 1 {
      assert Front(keys)[1..] == Front(keys[1..]);
      WritesLast(t.Written(keys[0].0, keys[0].1, canonical), keys[1..], canonical);
    }
  }

  /** The last thing entered is a character that was typed, other than a newline. */
  predicate EndsTyped(keys: seq<(Char, bool)>) {
    keys != [] && Last(keys).1 && Last(keys).0 != NEWLINE
  }

  /**
    The input without what was taken back: a backspace takes the last typed character with
    it, and a backspace behind program output, behind a newline or at the start means nothing.
   */
  function Kept(keys: seq<(Char, bool)>): seq<(Char, bool)>
    decreases |keys|
  {
    if keys == [] then []
    else if !IsBackspace(Last(keys), true) then Kept(Front(keys)) + [Last(keys)]
    else if EndsTyped(Kept(Front(keys))) then Front(Kept(Front(keys)))
    else Kept(Front(keys))
  }

  /** The same terminal, but for cells that are blank. */
  ghost predicate Fades(u: Term, t: Term) {
    && u.Ok() && t.Ok() && u.w == t.w && |u.rows| == |t.rows| && u.cx == t.cx && u.cy == t.cy && u.run == t.run
    && forall y, x :: 0 <= y < |t.rows| && 0 <= x < t.w ==> u.rows[y][x] == t.rows[y][x] || u.rows[y][x] == BLANK
  }

  lemma FadesWritten(u: Term, t: Term, c: Char, fromKeyboard: bool)
    requires Fades(u, t)
    ensures Fades(u.Written(c, fromKeyboard, true), t.Written(c, fromKeyboard, true))
  {
    WrittenOk(u, c, fromKeyboard, true);
    WrittenOk(t, c, fromKeyboard, true);
    if !IsBackspace((c, fromKeyboard), true) {
      FadesCharacter(u, t, c, fromKeyboard);
    }
  }

  lemma FadesCharacter(u: Term, t: Term, c: Char, fromKeyboard: bool)
    requires Fades(u, t) && !IsBackspace((c, fromKeyboard), true)
    ensures Fades(u.Written(c, fromKeyboard, true), t.Written(c, fromKeyboard, true))
  {
    hide Term.Written, Term.Ok;
    CharacterShown(u, c, fromKeyboard, true);
    CharacterShown(t, c, fromKeyboard, true);
  }

  /** Typing and taking back again leaves the terminal as it was, but for a row that is cleared. */
  lemma FadesUndone(u: Term, t: Term, c: Char)
    requires t.Ok() && c != NEWLINE && c != BACKSPACE && t.Written(c, true, true).Ok()
    requires Fades(u, t.Written(c, true, true))
    ensures Fades(u.Written(BACKSPACE, true, true), t)
  {
    hide Term.Written;
    FadesWritten(u, t.Written(c, true, true), BACKSPACE, true);
    BackspaceUndoes(t, c);
  }

  /** No backspace is kept. */
  lemma {:induction false} NoBackspaceKept(keys: seq<(Char, bool)>)
    ensures forall i :: 0 <= i < |Kept(keys)| ==> !IsBackspace(Kept(keys)[i], true)
    decreases |keys|
  {
    if keys != [] {
      NoBackspaceKept(Front(keys));
    }
  }

  /**
    Over any run of output and typing the terminal is the one that what is kept of the input
    gives: cursor, cells, and how much may still be taken back; but rows that scrolling
    cleared meanwhile stay blank. So no backspace ever reaches program output or an ended line.
   */
  lemma {:induction false} EditingIsKeeping(t: Term, keys: seq<(Char, bool)>)
    requires t.Ok() && t.run == 0
    ensures Fades(Writes(t, keys, true), Writes(t, Kept(keys), true))
    decreases |keys|
  {
    hide Fades, Term.Ok, Term.Written, Writes;
    if keys == [] {
      FadesAtStart(t);
    } else {
      var c, fromKeyboard, kept := Last(keys).0, Last(keys).1, Kept(Front(keys));
      EditingIsKeeping(t, Front(keys));
      WritesLast(t, keys, true);
      if !IsBackspace(Last(keys), true) {
        assert Front(kept + [Last(keys)]) == kept;
        WritesLast(t, kept + [Last(keys)], true);
        FadesWritten(Writes(t, Front(keys), true), Writes(t, kept, true), c, fromKeyboard);
      } else if EndsTyped(kept) {
        NoBackspaceKept(Front(keys));
        assert !IsBackspace(kept[|kept| - 1], true);
        WritesLast(t, kept, true);
        WritesOk(t, kept, true);
        FadesUndone(Writes(t, Front(keys), true), Writes(t, Front(kept), true), Last(kept).0);
      } else {
        NothingTyped(t, kept);
        FadesWritten(Writes(t, Front(keys), true), Writes(t, kept, true), BACKSPACE, true);
      }
    }
  }

  lemma FadesAtStart(t: Term)
    requires t.Ok()
    ensures Fades(Writes(t, [], true), Writes(t, [], true))
  {
  }

  /** With nothing typed at the end, the backspace key does nothing. */
  lemma NothingTyped(t: Term, keys: seq<(Char, bool)>)
    requires t.Ok() && t.run == 0 && !EndsTyped(keys)
    ensures Writes(t, keys, true).Ok()
    ensures Writes(t, keys, true).Written(BACKSPACE, true, true) == Writes(t, keys, true)
  {
    if keys != [] {
      WritesLast(t, keys, true);
      StaysPut(Writes(t, Front(keys), true), Last(keys).0, Last(keys).1, true);
    }
  }

  // --- Which cells a backspace can blank ---

  /** The cells that got a character from the keyboard since a program last wrote or a line was ended. */
  function Typed(t: Term, keys: seq<(Char, bool)>): set<(nat, nat)>
    requires t.Ok()
    decreases |keys|
  {
    if keys == [] then {}
    else
      var before, (c, fromKeyboard) := Writes(t, Front(keys), true), Last(keys);
      if IsBackspace(Last(keys), true) then Typed(t, Front(keys))
      else if !fromKeyboard || c == NEWLINE then {}
      else Typed(t, Front(keys)) + {(before.cy, before.cx)}
  }

  /** The `n` cells before a place, going up a row from the start of one, round the ring. */
  ghost predicate Reach(cells: set<(nat, nat)>, y: nat, x: nat, w: nat, h: nat, n: nat)
    requires x < w && y < h
    decreases n
  {
    n == 0 || (var y', x' := if x == 0 then Above(y, h) else y, if x == 0 then w - 1 else x - 1;
               (y', x') in cells && Reach(cells, y', x', w, h, n - 1))
  }

  lemma {:induction false} ReachMore(cells: set<(nat, nat)>, more: set<(nat, nat)>, y: nat, x: nat, w: nat, h: nat,
                                     n: nat)
    requires x < w && y < h && cells <= more && Reach(cells, y, x, w, h, n)
    ensures Reach(more, y, x, w, h, n)
    decreases n
  {
    if n > 0 {
      ReachMore(cells, more, if x == 0 then Above(y, h) else y, if x == 0 then w - 1 else x - 1, w, h, n - 1);
    }
  }

  /** What can be taken back reaches back over the given cells. */
  ghost predicate Reaches(t: Term, cells: set<(nat, nat)>) {
    t.Shaped() && Reach(cells, t.cy, t.cx, t.w, |t.rows|, t.run)
  }

  lemma ReachesAfterBackspace(t: Term, cells: set<(nat, nat)>)
    requires t.Ok() && Reaches(t, cells)
    ensures Reaches(t.Written(BACKSPACE, true, true), cells)
  {
    WrittenOk(t, BACKSPACE, true, true);
  }

  lemma ReachesAfterCharacter(t: Term, cells: set<(nat, nat)>, c: Char, fromKeyboard: bool)
    requires t.Ok() && Reaches(t, cells) && !IsBackspace((c, fromKeyboard), true)
    ensures Reaches(t.Written(c, fromKeyboard, true),
                    if !fromKeyboard || c == NEWLINE then {} else cells + {(t.cy, t.cx)})
  {
    hide Term.Written, Term.ReachClear;
    CharacterShown(t, c, fromKeyboard, true);
    ReachMore(cells, cells + {(t.cy, t.cx)}, t.cy, t.cx, t.w, |t.rows|, t.run);
  }

  /** What can be taken back reaches typed cells only. */
  lemma {:induction false} ReachesTyped(t: Term, keys: seq<(Char, bool)>)
    requires t.Ok() && t.run == 0
    ensures Reaches(Writes(t, keys, true), Typed(t, keys))
    decreases |keys|
  {
    hide Term.Ok, Term.Written, Reaches;
    if keys == [] {
      ReachesNone(t);
    } else {
      ReachesTyped(t, Front(keys));
      WritesLast(t, keys, true);
      var u := Writes(t, Front(keys), true);
      if IsBackspace(Last(keys), true) {
        ReachesAfterBackspace(u, Typed(t, Front(keys)));
      } else {
        ReachesAfterCharacter(u, Typed(t, Front(keys)), Last(keys).0, Last(keys).1);
      }
    }
  }

  lemma ReachesNone(t: Term)
    requires t.Ok() && t.run == 0
    ensures Reaches(Writes(t, [], true), {})
  {
  }

  lemma {:induction false} WritesSize(t: Term, keys: seq<(Char, bool)>)
    requires t.Ok()
    ensures var u := Writes(t, keys, true); u.Ok() && u.w == t.w && |u.rows| == |t.rows|
    decreases |keys|
  {
    hide Writes;
    if keys == [] {
      WritesNone(t);
    } else {
      WritesSize(t, Front(keys));
      WritesLast(t, keys, true);
      WrittenOk(Writes(t, Front(keys), true), Last(keys).0, Last(keys).1, true);
    }
  }

  lemma WritesNone(t: Term)
    requires t.Ok()
    ensures Writes(t, [], true) == t
  {
  }

  /**
    After any run of output and typing the backspace key changes no cell but one that was
    typed since a program last wrote or a line was ended.
   */
  lemma BackspaceBlanksTyped(t: Term, keys: seq<(Char, bool)>, y: nat, x: nat)
    requires t.Ok() && t.run == 0
    requires y < |t.rows| && x < t.w && (y, x) !in Typed(t, keys)
    ensures var u := Writes(t, keys, true);
            && u.Ok() && |u.rows| == |t.rows| && u.w == t.w
            && u.Written(BACKSPACE, true, true).rows[y][x] == u.rows[y][x]
  {
    hide Typed, Writes;
    ReachesTyped(t, keys);
    WritesSize(t, keys);
  }
}
