/** The board as a whole: building the grid for a message, registering one animation
    task per cell, running them, and clearing the registry afterwards. */
module Board {
  import opened Alphabet
  import opened Reformat
  import opened Animator

  /** Milliseconds between the starts of two neighbouring cells. */
  const Cascade: nat := 90

  /** How long the task of cell `idx` waits before it first touches its cell. */
  function StartDelay(idx: nat): nat
  {
    idx * Cascade
  }

  /** Cells start in index order, each one cascade interval after the one before it, so
      the animation runs across the board as a wave. */
  lemma StartDelayOrder(i: nat, j: nat)
    requires i <= j
    ensures StartDelay(i) <= StartDelay(j)
    ensures StartDelay(j) - StartDelay(i) == (j - i) * Cascade
  {
  }

  /** The animation every registered task runs; the registry holds one reference to it
      per cell. */
  datatype Task = ProcessCellTask

  /** Builds one row of the grid: `charsPerLine` new cells, each showing the blank. */
  method CreateDisplayLine(charsPerLine: nat) returns (line: seq<Cell>)
    ensures |line| == charsPerLine
    ensures forall i :: 0 <= i < |line| ==> fresh(line[i])
    ensures forall i :: 0 <= i < |line| ==> line[i].top == Blank && line[i].bottom == Blank && line[i].log == []
    ensures forall i, j :: 0 <= i < j < |line| ==> line[i] != line[j]
  {
    line := [];
    for i := 0 to charsPerLine
      invariant |line| == i
      invariant forall k :: 0 <= k < i ==> fresh(line[k])
      invariant forall k :: 0 <= k < i ==> line[k].top == Blank && line[k].bottom == Blank && line[k].log == []
      invariant forall k, l :: 0 <= k < l < i ==> line[k] != line[l]
    {
      var glyph := new Cell();
      line := line + [glyph];
    }
  }

  /** The state the board keeps between building the grid and the end of a run: the
      message to show and the two parallel registries of tasks and their parameters. */
  class Display {
    var message: string
    var funcs: seq<Task>
    var params: seq<CellParams>

    /** The two registries stay parallel: one parameter record per task. */
    ghost predicate Valid()
      reads this
    {
      |funcs| == |params|
    }

    constructor ()
      ensures Valid()
      ensures message == [] && funcs == [] && params == []
    {
      message, funcs, params := [], [], [];
    }

    /** Builds a grid as wide as the longest line of `text`, one row per line, and
        fits the text to it as the message. */
    method PrepareGrid(text: string) returns (cells: seq<Cell>)
      modifies this`message
      ensures message == FittedMessage(text)
      ensures |cells| == |SplitLines(text)| * Width(SplitLines(text)) == |message|
      ensures forall i :: 0 <= i < |cells| ==> fresh(cells[i])
      ensures forall i :: 0 <= i < |cells| ==> cells[i].top == Blank && cells[i].bottom == Blank && cells[i].log == []
      ensures forall i, j :: 0 <= i < j < |cells| ==> cells[i] != cells[j]
    {
      var lines := SplitLines(text);
      var charsPerLine := Width(lines);
      cells := [];
      for r := 0 to |lines|
        invariant |cells| == r * charsPerLine
        invariant forall i :: 0 <= i < |cells| ==> fresh(cells[i])
        invariant forall i :: 0 <= i < |cells| ==> cells[i].top == Blank && cells[i].bottom == Blank && cells[i].log == []
        invariant forall i, j :: 0 <= i < j < |cells| ==> cells[i] != cells[j]
      {
        var line := CreateDisplayLine(charsPerLine);
        cells := cells + line;
        assert (r + 1) * charsPerLine == r * charsPerLine + charsPerLine;
      }
      message := ReformatMsg(lines, charsPerLine);
    }

    /** Registers one task per message position: task `i` animates `displayCells[i]`
        towards `message[i]` through the whole alphabet. */
    method LoadFuncArray(displayCells: seq<Cell>)
      requires Valid()
      requires |message| <= |displayCells|
      modifies this`funcs, this`params
      ensures Valid()
      ensures |params| == |old(params)| + |message|
      ensures params[..|old(params)|] == old(params) && funcs[..|old(funcs)|] == old(funcs)
      ensures forall i :: 0 <= i < |message| ==>
        params[|old(params)| + i] == CellParams(i, displayCells[i], message[i], Characters)
      ensures forall i :: |old(funcs)| <= i < |funcs| ==> funcs[i] == ProcessCellTask
    {
      for i := 0 to |message|
        invariant Valid()
        invariant |params| == |old(params)| + i
        invariant params[..|old(params)|] == old(params) && funcs[..|old(funcs)|] == old(funcs)
        invariant forall k :: 0 <= k < i ==>
          params[|old(params)| + k] == CellParams(k, displayCells[k], message[k], Characters)
        invariant forall k :: |old(funcs)| <= k < |funcs| ==> funcs[k] == ProcessCellTask
      {
        funcs := funcs + [ProcessCellTask];
        params := params + [CellParams(i, displayCells[i], message[i], Characters)];
      }
    }

    /** Empties both registries and forgets the message, ready for the next run. */
    method CleanUp()
      modifies this
      ensures Valid()
      ensures funcs == [] && params == [] && message == []
    {
      funcs, params, message := [], [], [];
    }

    /** Runs every registered task to completion, one after another, then cleans up.
        Returns the indices the tasks report, in registry order. */
    method DisplayMessage() returns (results: seq<nat>)
      requires Valid()
      requires forall i, j :: 0 <= i < j < |params| ==> params[i].ele != params[j].ele
      modifies this, set p | p in params :: p.ele
      ensures Valid()
      ensures funcs == [] && params == [] && message == []
      ensures |results| == |old(params)|
      ensures forall i :: 0 <= i < |results| ==> results[i] == old(params)[i].idx
      ensures forall i :: 0 <= i < |old(params)| ==>
        var p := old(params)[i];
        var written := Trace(old(p.ele.top), p.tgt, p.chars);
        && p.ele.top == Settled(old(p.ele.top), p.tgt, p.chars)
        && p.ele.bottom == (if written == [] then old(p.ele.bottom) else p.ele.top)
        && p.ele.log == old(p.ele.log) + Flaps(written)
    {
      var tasks := params;
      results := [];
      for i := 0 to |funcs|
        invariant params == tasks && funcs == old(funcs) && message == old(message)
        invariant |results| == i
        invariant forall k :: 0 <= k < i ==> results[k] == tasks[k].idx
        invariant forall k :: 0 <= k < i ==>
          var p := tasks[k];
          var written := Trace(old(p.ele.top), p.tgt, p.chars);
          && p.ele.top == Settled(old(p.ele.top), p.tgt, p.chars)
          && p.ele.bottom == (if written == [] then old(p.ele.bottom) else p.ele.top)
          && p.ele.log == old(p.ele.log) + Flaps(written)
        invariant forall k :: i <= k < |tasks| ==>
          var c := tasks[k].ele;
          c.top == old(c.top) && c.bottom == old(c.bottom) && c.log == old(c.log)
      {
        var idx := ProcessCell(tasks[i]);
        results := results + [idx];
      }
      CleanUp();
    }

    /** One press of the run button: build the grid, register the tasks, run them and
        clean up. Afterwards every cell shows its character of the fitted message on
        both halves. */
    method DoWork(text: string) returns (cells: seq<Cell>)
      requires Valid() && funcs == [] && params == []
      modifies this
      ensures Valid() && funcs == [] && params == [] && message == []
      ensures |cells| == |FittedMessage(text)|
      ensures forall i :: 0 <= i < |cells| ==>
        cells[i].top == cells[i].bottom == FittedMessage(text)[i]
      ensures forall i :: 0 <= i < |cells| ==>
        cells[i].log == Flaps(Trace(Blank, FittedMessage(text)[i], Characters))
    {
      cells := PrepareGrid(text);
      ghost var m := message;
      assert m == FittedMessage(text);
      LoadFuncArray(cells);
      assert |params| == |cells| == |m|;
      assert forall i :: 0 <= i < |params| ==> params[i] == CellParams(i, cells[i], m[i], Characters);
      forall i, j | 0 <= i < j < |params|
        ensures params[i].ele != params[j].ele
      {
        assert params[i].ele == cells[i] && params[j].ele == cells[j];
      }
      forall p | p in params
        ensures fresh(p.ele)
      {
        var i :| 0 <= i < |params| && params[i] == p;
        assert p.ele == cells[i];
      }
      label Loaded:
      var results := DisplayMessage();
      forall i | 0 <= i < |cells|
        ensures cells[i].top == Settled(Blank, m[i], Characters)
        ensures cells[i].log == Flaps(Trace(Blank, m[i], Characters))
        ensures Trace(Blank, m[i], Characters) != [] ==> cells[i].bottom == cells[i].top
      {
        assert old@Loaded(params)[i] == CellParams(i, cells[i], m[i], Characters);
        assert old@Loaded(cells[i].top) == Blank && old@Loaded(cells[i].log) == [];
        var flaps := Flaps(Trace(Blank, m[i], Characters));
        assert cells[i].log == old@Loaded(cells[i].log) + flaps;
        assert [] + flaps == flaps;
      }
      forall i | 0 <= i < |cells|
        ensures cells[i].top == cells[i].bottom == m[i]
      {
        NewCellReachesFlap(m[i]);
      }
    }
  }
}
