/** One display cell and the animation that turns its flaps until it shows its target. */
module Animator {
  import opened Alphabet

  /** One visible change of a cell: a new glyph on the top half or on the bottom half. */
  datatype Flap = Top(glyph: char) | Bottom(glyph: char)

  /** A display cell: two halves that each show one glyph. */
  class Cell {
    var top: char
    var bottom: char
    /** Every change the cell has shown, oldest first. */
    ghost var log: seq<Flap>

    /** A cell of a freshly built grid shows the blank on both halves. */
    constructor ()
      ensures top == Blank && bottom == Blank && log == []
    {
      top, bottom := Blank, Blank;
      log := [];
    }

    method SetTop(s: char)
      modifies this
      ensures top == s && bottom == old(bottom)
      ensures log == old(log) + [Top(s)]
    {
      top := s;
      log := log + [Top(s)];
    }

    method SetBottom(s: char)
      modifies this
      ensures bottom == s && top == old(top)
      ensures log == old(log) + [Bottom(s)]
    {
      bottom := s;
      log := log + [Bottom(s)];
    }
  }

  /** What one animation task is given: its position, its cell, the glyph it must
      reach and the flaps it may turn through. */
  datatype CellParams = CellParams(idx: nat, ele: Cell, tgt: char, chars: string)

  /** The glyphs an animation writes to a cell that shows `cur`: the flaps are taken
      from the front of `chars`, never wrapping, until the target shows or no flap is
      left. */
  function Trace(cur: char, tgt: char, chars: string): (written: string)
    ensures |written| <= |chars| && written == chars[..|written|]
    ensures cur == tgt ==> written == []
    decreases |chars|
  {
    if cur == tgt || chars == [] then [] else [chars[0]] + Trace(chars[0], tgt, chars[1..])
  }

  /** The animation stops at the first sight of the target, and only there or when
      every flap has been turned. */
  lemma {:induction false} TraceStops(cur: char, tgt: char, chars: string)
    ensures var written := Trace(cur, tgt, chars);
      && (forall i :: 0 <= i < |written| - 1 ==> written[i] != tgt)
      && (cur != tgt ==> written == chars || (written != [] && written[|written| - 1] == tgt))
    decreases |chars|
  {
    if cur != tgt && chars != [] {
      TraceStops(chars[0], tgt, chars[1..]);
    }
  }

  /** The glyph a cell that shows `cur` ends on. */
  function Settled(cur: char, tgt: char, chars: string): (glyph: char)
    ensures glyph == tgt || glyph == (if chars == [] then cur else chars[|chars| - 1])
  {
    TraceStops(cur, tgt, chars);
    var written := Trace(cur, tgt, chars);
    if written == [] then cur else written[|written| - 1]
  }

  /** The changes a cell shows while the glyphs `written` are written to it: each
      glyph first on the top half, then on the bottom half. */
  function Flaps(written: string): (events: seq<Flap>)
    ensures |events| == 2 * |written|
  {
    if written == [] then [] else [Top(written[0]), Bottom(written[0])] + Flaps(written[1..])
  }

  lemma {:induction false} FlapsAppend(written: string, s: char)
    ensures Flaps(written + [s]) == Flaps(written) + [Top(s), Bottom(s)]
  {
    if written != [] {
      assert (written + [s])[1..] == written[1..] + [s];
      FlapsAppend(written[1..], s);
    }
  }

  lemma {:induction false} FlapsAt(written: string, k: nat)
    requires k < |written|
    ensures Flaps(written)[2 * k] == Top(written[k])
    ensures Flaps(written)[2 * k + 1] == Bottom(written[k])
  {
    if k > 0 {
      FlapsAt(written[1..], k - 1);
    }
  }

  /** Top leads, bottom follows: every glyph on the bottom half was shown on the top
      half by the change just before, so the bottom never shows a glyph the top has
      not shown. */
  lemma TopLeadsBottom(written: string, p: nat)
    requires p < |Flaps(written)| && Flaps(written)[p].Bottom?
    ensures p >= 1 && Flaps(written)[p - 1] == Top(Flaps(written)[p].glyph)
  {
    FlapsAt(written, p / 2);
  }

  /** Animates one cell (the cascade delay and the pauses between flaps are not
      modelled): turns the cell's flaps through a private copy of the alphabet until
      the cell shows the target or the copy runs out, and returns the cell's index. */
  method ProcessCell(data: CellParams) returns (idx: nat)
    modifies data.ele
    ensures idx == data.idx
    ensures data.ele.top == Settled(old(data.ele.top), data.tgt, data.chars)
    ensures var written := Trace(old(data.ele.top), data.tgt, data.chars);
      && data.ele.log == old(data.ele.log) + Flaps(written)
      && data.ele.bottom == if written == [] then old(data.ele.bottom) else data.ele.top
  {
    var cell := data.ele;
    var tgtGlyph := data.tgt;
    var chars := data.chars;
    var curGlyph := cell.top;
    ghost var start, startBottom, startLog := cell.top, cell.bottom, cell.log;
    ghost var written: string := [];
    while curGlyph != tgtGlyph && |chars| != 0
      invariant written + Trace(curGlyph, tgtGlyph, chars) == Trace(start, tgtGlyph, data.chars)
      invariant curGlyph == cell.top
      invariant written == [] ==> curGlyph == start && cell.bottom == startBottom
      invariant written != [] ==> cell.bottom == curGlyph == written[|written| - 1]
      invariant cell.log == startLog + Flaps(written)
      decreases |chars|
    {
      TraceAdvance(written, curGlyph, tgtGlyph, chars);
      cell.SetTop(chars[0]);
      cell.SetBottom(chars[0]);
      curGlyph := cell.top;
      FlapsAppend(written, chars[0]);
      written := written + [chars[0]];
      chars := chars[1..];
    }
    assert Trace(curGlyph, tgtGlyph, chars) == [];
    assert written == Trace(start, tgtGlyph, data.chars);
    idx := data.idx;
  }

  // One turn of the animation loop: the glyph written moves from the remaining trace
  // to what has been written.
  lemma TraceAdvance(written: string, cur: char, tgt: char, chars: string)
    requires cur != tgt && chars != []
    ensures written + Trace(cur, tgt, chars) == (written + [chars[0]]) + Trace(chars[0], tgt, chars[1..])
  {
  }

  // --------------------------------------------------------------- convergence

  /** A target among the flaps is reached after exactly the flaps up to and including
      its first occurrence, and the cell then shows it. */
  lemma {:induction false} ReachesTarget(cur: char, tgt: char, chars: string)
    requires cur != tgt && tgt in chars
    ensures Trace(cur, tgt, chars) == chars[..IndexOf(chars, tgt) + 1]
    ensures Settled(cur, tgt, chars) == tgt
    decreases |chars|
  {
    if chars[0] != tgt {
      var rest := chars[1..];
      ReachesTarget(chars[0], tgt, rest);
      assert IndexOf(chars, tgt) == IndexOf(rest, tgt) + 1;
      assert chars[..IndexOf(chars, tgt) + 1] == [chars[0]] + rest[..IndexOf(rest, tgt) + 1];
      assert Trace(cur, tgt, chars) == [chars[0]] + Trace(chars[0], tgt, rest);
    } else {
      assert IndexOf(chars, tgt) == 0;
    }
  }

  /** A target that is no flap is never reached: every flap is written, in order, and
      the cell stops on the last one. */
  lemma {:induction false} ExhaustsFlaps(cur: char, tgt: char, chars: string)
    requires cur != tgt && tgt !in chars
    ensures Trace(cur, tgt, chars) == chars
    ensures chars != [] ==> Settled(cur, tgt, chars) == chars[|chars| - 1]
    decreases |chars|
  {
    if chars != [] {
      ExhaustsFlaps(chars[0], tgt, chars[1..]);
    }
  }

  /** Animating a cell a second time towards the same target leaves it where the first
      animation left it. */
  lemma SettledIdempotent(cur: char, tgt: char, chars: string)
    ensures Settled(Settled(cur, tgt, chars), tgt, chars) == Settled(cur, tgt, chars)
    ensures (cur == tgt || tgt in chars) ==> Trace(Settled(cur, tgt, chars), tgt, chars) == []
  {
    var once := Settled(cur, tgt, chars);
    if cur != tgt {
      if tgt in chars {
        ReachesTarget(cur, tgt, chars);
      } else {
        ExhaustsFlaps(cur, tgt, chars);
        if chars != [] {
          ExhaustsFlaps(once, tgt, chars);
        }
      }
    }
  }

  /** On a new cell, a target flap at position k of the alphabet takes k + 1 flaps,
      and the cell ends with the target on both halves. */
  lemma NewCellReachesFlap(tgt: char)
    requires tgt in Characters
    ensures Trace(Blank, tgt, Characters) == Characters[..IndexOf(Characters, tgt) + 1]
    ensures |Trace(Blank, tgt, Characters)| == IndexOf(Characters, tgt) + 1
    ensures Settled(Blank, tgt, Characters) == tgt
  {
    BlankIsNotAFlap();
    ReachesTarget(Blank, tgt, Characters);
  }

  /** Even the space, the first flap, takes one flap on a new cell, since the blank a
      new cell shows is not the space. */
  lemma NewCellSpaceTakesOneFlap()
    ensures Trace(Blank, ' ', Characters) == [' ']
  {
    CharactersEnds();
    NewCellReachesFlap(' ');
  }

  /** On a new cell, a target that is no flap makes the cell turn through the whole
      alphabet and stop on the replacement glyph. */
  lemma NewCellMissesNonFlap(tgt: char)
    requires tgt !in Characters && tgt != Blank
    ensures Trace(Blank, tgt, Characters) == Characters
    ensures Settled(Blank, tgt, Characters) == Replacement
  {
    CharactersEnds();
    ExhaustsFlaps(Blank, tgt, Characters);
  }
}
