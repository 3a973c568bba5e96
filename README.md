# Split-flap display: a Dafny model

This project models the core of a browser demo that shows a message on a simulated
split-flap board, like an airport departure board. Every character cell has a top
half and a bottom half. To reach its target character, a cell turns through a fixed
alphabet one flap at a time. For each flap the top half changes first and the bottom
half follows. Cells start one after another in a cascade.

The model covers four parts, one module each:

- `Alphabet` (`alphabet.dfy`): the flap alphabet `Characters`, which starts with the
  space and ends with the replacement glyph `☒`. It also holds the non-breaking space
  a new cell shows (`Blank`). It is proved that the alphabet has no duplicates and that
  `Blank` is not one of its flaps.
- `Reformat` (`reformat.dfy`): how the text typed by the user becomes the message.
  The text is split into lines and the grid width is the longest line. Each line is
  upper-cased and right-padded to that width, and the lines are joined. Finally every
  character that is not a flap is replaced by `☒`. The joining and padding are pure
  functions. The cleaning loop is the method `ReformatMsg`.
- `Animator` (`animator.dfy`): a display cell is the class `Cell`, with `top`, `bottom`
  and a ghost log of every visible change. One cell's animation is the method
  `ProcessCell`, which has the same loop as the source. The loop is proved against the
  pure functions `Trace` (the glyphs written, in order) and `Settled` (the glyph the
  cell ends on). Lemmas state termination, convergence, the non-wrapping search,
  idempotence and "top leads bottom".
- `Board` (`board.dfy`): the process-wide state is the class `Display`. It holds the
  message and the two parallel registries, `funcsArray` and `paramsArray`. It builds the
  grid, registers one task per cell, runs the tasks one after another, and clears the
  registries. `DoWork` is the whole press of the run button. Afterwards every cell
  shows its character of the fitted message on both halves.

Four behaviours of the code are worth knowing:

- A cell starts on a non-breaking space, which is not a flap. So a target of `' '`
  takes one flap, not zero, and even an all-space message moves every cell once.
- The search runs forward through the alphabet once and never wraps. A target that is
  no flap leaves the cell on `☒` after every flap has been shown.
- The code does not check that a target is in the alphabet. The reformatting step
  makes every target a flap, which `FittedMessage` proves.
- The comments at main.js:36-38 and main.js:80-82 say that a target outside the
  alphabet would make the search never end. The loop guard `chars.length != 0`
  (main.js:166) stops it anyway, after the last flap: `ExhaustsFlaps` and
  `NewCellMissesNonFlap` prove that such a cell ends on `☒`. The replacement step only
  keeps the board from showing a wrong glyph.

## Model

| member | source | states |
|---|---|---|
| `Alphabet.CharactersEnds` | main.js:42-47 | the alphabet has 52 flaps, the space first and the replacement glyph last |
| `Alphabet.BlankIsNotAFlap` | main.js:39-47 | the replacement glyph and the space are flaps; the non-breaking space of a new cell is not |
| `Alphabet.CharactersDistinct` | main.js:42-47 | no flap appears twice in the alphabet |
| `Reformat.SplitLines` | main.js:100 | splitting at line feeds and CR LF pairs yields at least one line, and no line holds a line feed |
| `Reformat.SplitJoin` | main.js:100 | for text without carriage returns, joining the lines with line feeds gives back the text |
| `Reformat.Width` | main.js:102 | the grid width is at least the length of every line and equals the length of some line |
| `Reformat.PadEnd` | main.js:84 | padding keeps the line as a prefix, fills with spaces up to the width, and never shortens a longer line |
| `Reformat.PaddedLength` | main.js:83-86 | when no line is wider than the grid, the joined padded lines are exactly rows times width long |
| `Reformat.PaddedAt` | main.js:83-86 | column j of row k of the joined text is character j of line k upper-cased, or a space past the end of that line |
| `Reformat.SanitizedFlaps` | main.js:88-92 | cleaning keeps length, keeps every flap in place, and turns every other character into the replacement glyph |
| `Reformat.ReformatMsg` | main.js:78-94 | the loop's result has the padded text's length, holds only flaps, keeps each flap and replaces each non-flap with `☒` |
| `Reformat.FittedMessage` | main.js:96-115 | the message has one character per grid cell (rows times width), and each is a flap |
| `Animator.Cell.constructor` | main.js:60-72 | a new cell shows the non-breaking space on both halves and has shown nothing yet |
| `Animator.Cell.SetTop` | main.js:167 | writing the top half changes only the top half and logs the change |
| `Animator.Cell.SetBottom` | main.js:170 | writing the bottom half changes only the bottom half and logs the change |
| `Animator.Trace` | main.js:161-175 | the glyphs written are a prefix of the alphabet copy, in order, at most one per flap; nothing is written when the cell already shows the target |
| `Animator.TraceStops` | main.js:166-174 | the animation never writes past the target, and it stops only on the target or after the last flap |
| `Animator.Settled` | main.js:162-175 | a cell ends on its target, or else on the last flap (on its starting glyph when there are no flaps); the search never wraps |
| `Animator.Flaps` | main.js:167-171 | each glyph written makes two changes, top then bottom |
| `Animator.FlapsAt` | main.js:167-170 | the k-th glyph written shows on the top half at change 2k and on the bottom half at change 2k+1 |
| `Animator.TopLeadsBottom` | main.js:167-171 | every bottom change repeats the top change just before it, so the bottom never shows a glyph the top has not shown |
| `Animator.ProcessCell` | main.js:154-177 | the loop terminates, returns its own index, leaves the cell on `Settled` with both halves equal once anything was written, and logs exactly `Flaps(Trace(...))` |
| `Animator.ReachesTarget` | main.js:166-174 | a target in the alphabet copy is reached after exactly the flaps up to its first occurrence, and the cell then shows it |
| `Animator.ExhaustsFlaps` | main.js:166-174 | a target that is no flap makes the cell show every flap in order and stop on the last one |
| `Animator.SettledIdempotent` | main.js:162-175 | animating a cell again towards the same target leaves it where it was, and writes nothing when the target was reached |
| `Animator.NewCellReachesFlap` | main.js:161-175 | on a new cell, the flap at alphabet position k takes exactly k+1 flaps and the cell ends on it |
| `Animator.NewCellSpaceTakesOneFlap` | main.js:62 | on a new cell, the space takes one flap, not zero |
| `Animator.NewCellMissesNonFlap` | main.js:36-47 | on a new cell, a target that is no flap shows the whole alphabet and leaves the cell on `☒` |
| `Board.StartDelayOrder` | main.js:156 | cascade start offsets grow with the index, by exactly one cascade interval per cell |
| `Board.CreateDisplayLine` | main.js:55-76 | a grid row has `charsPerLine` new, distinct cells, each showing the non-breaking space |
| `Board.Display.constructor` | main.js:121-124 | the registries and the message start empty |
| `Board.Display.PrepareGrid` | main.js:96-116 | the grid has one row per line and width cells per row, all new and distinct and blank, and the message is the fitted message with one character per cell |
| `Board.Display.LoadFuncArray` | main.js:179-193 | exactly one task and one record are appended per message position; record i has index i, cell i, target `message[i]` and the whole alphabet; earlier entries are kept |
| `Board.Display.CleanUp` | main.js:147-150 | both registries become empty and the message becomes empty |
| `Board.Display.DisplayMessage` | main.js:126-145 | every registered cell ends as its own animation leaves it, the results are the task indices in registry order, and the registries are cleared afterwards |
| `Board.Display.DoWork` | main.js:206-211 | after one run every cell shows its character of the fitted message on both halves, has shown exactly `Flaps(Trace(...))`, and the registries are empty again |

## Left out

- Building the page: the DOM elements, CSS classes and custom properties, the `gap`
  options, `window.onload`, and the run button's `disabled` flag (main.js:15-33,
  main.js:55-76, main.js:197-204). Only what they mean for cell state is modelled:
  a new cell shows the non-breaking space on both halves.
- Timers and concurrency: the `setTimeout` waits, the async tasks, `Promise.all` and
  console logging. `DisplayMessage` runs the tasks one after another, which is one
  legal interleaving, because each task touches only its own cell. It therefore
  requires the registered cells to be pairwise distinct. The delays appear only as the
  integer `StartDelay(idx) = idx * Cascade`. The pauses between the top and bottom
  halves (`flapPause`) and between glyphs (`glyphPause`) are not modelled. A task failure and `Promise.all`'s early rejection are
  not modelled.
- `maxMessageLength` (main.js:29) is declared in the source but never used.
- `ToUpper` is ASCII-only and keeps length. JavaScript `toUpperCase` also maps other
  letters, some of them to longer strings (for example `ß` becomes `SS`). The source
  computes the grid width from the raw lines, so such a letter would make the message
  longer than the grid. The model cannot show that.
- Lengths count characters (code points). In the source, `s.length` (main.js:102) and
  `padEnd` (main.js:84) count UTF-16 units, but `for ... of` (main.js:90) walks code
  points. A character outside the Basic Multilingual Plane therefore counts twice for
  the grid width and the padding, yet becomes a single `☒` in the message. Each such
  character makes the source's message one character shorter than the grid: every
  later target moves one cell to the left, and the trailing cells get no task and stay
  on the non-breaking space. For the lines "😀" and "AB" the source shows `☒`, `A`,
  `B` and a blank, where the model shows `☒`, a space, `A` and `B`. So
  `Board.Display.DoWork`'s ensures holds for the source only on text without such
  characters; the model cannot show the shift because it counts code points.
- `Board.Display.LoadFuncArray` requires at least as many cells as message positions.
  The source would store `undefined` for a missing cell, and that task would fail.
  With length-keeping upper-casing the counts are always equal (`PrepareGrid`).
- `Board.Display.DoWork` requires empty registries at the start. In the source the
  disabled run button ensures this until `cleanUp` re-enables it.
