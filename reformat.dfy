/** Turning the text typed by the user into the message the board shows: split into
    lines, size the grid to the longest line, upper-case and pad every line, join them,
    and replace every character the board cannot show. */
module Reformat {
  import opened Alphabet

  // ---------------------------------------------------------------- splitting

  /** The lines of `text`, split at every line feed and at every carriage return
      immediately followed by a line feed, scanning from the left. */
  function SplitLines(text: string): (lines: seq<string>)
    ensures |lines| >= 1
    ensures forall k :: 0 <= k < |lines| ==> '\n' !in lines[k]
  {
    if text == [] then [[]]
    else if text[0] == '\n' then [[]] + SplitLines(text[1..])
    else if text[0] == '\r' && |text| > 1 && text[1] == '\n' then [[]] + SplitLines(text[2..])
    else
      var rest := SplitLines(text[1..]);
      [[text[0]] + rest[0]] + rest[1..]
  }

  /** The lines written back with a line feed between neighbours. */
  function JoinLines(lines: seq<string>): string
    requires |lines| >= 1
  {
    if |lines| == 1 then lines[0] else lines[0] + "\n" + JoinLines(lines[1..])
  }

  /** Splitting loses nothing but the separators: text without carriage returns is
      recovered by joining its lines with line feeds. A browser text area normalises
      its line breaks to line feeds, so the text the board reads has no carriage
      returns and this covers it; the CR LF case of `SplitLines` only matters for
      text from elsewhere. */
  lemma {:induction false} SplitJoin(text: string)
    requires '\r' !in text
    ensures JoinLines(SplitLines(text)) == text
  {
    if text == [] {
    } else if text[0] == '\n' {
      SplitJoin(text[1..]);
      assert text == "\n" + text[1..];
    } else {
      var rest := SplitLines(text[1..]);
      SplitJoin(text[1..]);
      var lines := SplitLines(text);
      assert lines == [[text[0]] + rest[0]] + rest[1..];
      if |rest| == 1 {
        assert JoinLines(lines) == [text[0]] + rest[0];
      } else {
        assert lines[1..] == rest[1..];
        assert JoinLines(rest) == rest[0] + "\n" + JoinLines(rest[1..]);
      }
      assert text == [text[0]] + text[1..];
    }
  }

  // -------------------------------------------------------------------- width

  /** The width of the grid: the length of the longest line. */
  function Width(lines: seq<string>): (w: nat)
    requires |lines| >= 1
    ensures forall k :: 0 <= k < |lines| ==> |lines[k]| <= w
    ensures exists k :: 0 <= k < |lines| && |lines[k]| == w
  {
    if |lines| == 1 then |lines[0]|
    else
      var w := Width(lines[1..]);
      assert forall k :: 1 <= k < |lines| ==> lines[k] == lines[1..][k - 1];
      if |lines[0]| > w then |lines[0]| else w
  }

  // ------------------------------------------------------------------ padding

  /** Upper case for one character; only the ASCII letters change. */
  function ToUpper(c: char): char
  {
    if 'a' <= c <= 'z' then (c as int - 'a' as int + 'A' as int) as char else c
  }

  function UpperCase(s: string): string
  {
    seq(|s|, i requires 0 <= i < |s| => ToUpper(s[i]))
  }

  /** `s` extended with spaces on the right to length `n`; a longer `s` is kept whole. */
  function PadEnd(s: string, n: nat): (r: string)
    ensures |r| == if |s| < n then n else |s|
    ensures r[..|s|] == s
    ensures forall i :: |s| <= i < |r| ==> r[i] == ' '
  {
    if |s| < n then s + seq(n - |s|, _ => ' ') else s
  }

  /** Every line upper-cased and padded to `charsPerLine`, then all joined in order. */
  function Padded(lines: seq<string>, charsPerLine: nat): string
  {
    if lines == [] then [] else PadEnd(UpperCase(lines[0]), charsPerLine) + Padded(lines[1..], charsPerLine)
  }

  /** When no line is wider than the grid, the padded text fills the grid exactly. */
  lemma {:induction false} PaddedLength(lines: seq<string>, charsPerLine: nat)
    requires forall k :: 0 <= k < |lines| ==> |lines[k]| <= charsPerLine
    ensures |Padded(lines, charsPerLine)| == |lines| * charsPerLine
  {
    if lines != [] {
      PaddedLength(lines[1..], charsPerLine);
      CellIndexNextRow(|lines|, 0, charsPerLine);
    }
  }

  /** Column `j` of row `k` holds character `j` of line `k`, upper-cased, or a space
      past the end of that line. */
  lemma {:induction false} PaddedAt(lines: seq<string>, charsPerLine: nat, k: nat, j: nat)
    requires forall k :: 0 <= k < |lines| ==> |lines[k]| <= charsPerLine
    requires k < |lines| && j < charsPerLine
    ensures CellIndex(k, j, charsPerLine) < |Padded(lines, charsPerLine)|
    ensures Padded(lines, charsPerLine)[CellIndex(k, j, charsPerLine)]
         == if j < |lines[k]| then ToUpper(lines[k][j]) else ' '
  {
    var upper := UpperCase(lines[0]);
    var head := PadEnd(upper, charsPerLine);
    var tail := Padded(lines[1..], charsPerLine);
    assert Padded(lines, charsPerLine) == head + tail;
    assert |head| == charsPerLine;
    if k == 0 {
      if j < |lines[0]| {
        assert head[..|upper|][j] == upper[j];
      }
    } else {
      var m := CellIndex(k - 1, j, charsPerLine);
      assert m < |tail| && tail[m] == if j < |lines[k]| then ToUpper(lines[k][j]) else ' ' by {
        var rest := lines[1..];
        forall i | 0 <= i < |rest|
          ensures |rest[i]| <= charsPerLine
        {
          assert rest[i] == lines[i + 1];
        }
        PaddedAt(rest, charsPerLine, k - 1, j);
        assert rest[k - 1] == lines[k];
      }
      assert CellIndex(k, j, charsPerLine) == charsPerLine + CellIndex(k - 1, j, charsPerLine) by {
        CellIndexNextRow(k, j, charsPerLine);
      }
      assert (head + tail)[charsPerLine + m] == tail[m];
    }
  }

  /** Position in the joined message of column `col` of row `row`. */
  function CellIndex(row: nat, col: nat, width: nat): nat
  {
    row * width + col
  }

  lemma CellIndexNextRow(row: nat, col: nat, width: nat)
    requires row >= 1
    ensures CellIndex(row, col, width) == width + CellIndex(row - 1, col, width)
  {
  }

  // ----------------------------------------------------------------- cleaning

  /** A character the board can show is kept; any other becomes the replacement. */
  function Sanitize(c: char): char
  {
    if c in Characters then c else Replacement
  }

  function Sanitized(s: string): string
  {
    seq(|s|, i requires 0 <= i < |s| => Sanitize(s[i]))
  }

  /** Cleaning keeps every flap in place and turns everything else into the
      replacement, so only flaps are left. */
  lemma SanitizedFlaps(s: string)
    ensures |Sanitized(s)| == |s|
    ensures forall i :: 0 <= i < |s| ==> Sanitized(s)[i] in Characters
    ensures forall i :: 0 <= i < |s| && s[i] in Characters ==> Sanitized(s)[i] == s[i]
    ensures forall i :: 0 <= i < |s| && s[i] !in Characters ==> Sanitized(s)[i] == Replacement
  {
    BlankIsNotAFlap();
  }

  /** Fits the lines to a grid `charsPerLine` wide and replaces every character that
      is not a flap, one character at a time. */
  method ReformatMsg(lines: seq<string>, charsPerLine: nat) returns (clean: string)
    ensures var padded := Padded(lines, charsPerLine);
      && |clean| == |padded|
      && (forall i :: 0 <= i < |clean| ==> clean[i] in Characters)
      && (forall i :: 0 <= i < |clean| && padded[i] in Characters ==> clean[i] == padded[i])
      && (forall i :: 0 <= i < |clean| && padded[i] !in Characters ==> clean[i] == Replacement)
    ensures clean == Sanitized(Padded(lines, charsPerLine))
  {
    var paddedString := Padded(lines, charsPerLine);
    clean := "";
    var i := 0;
    while i < |paddedString|
      invariant i <= |paddedString|
      invariant clean == Sanitized(paddedString[..i])
    {
      var chr := paddedString[i];
      assert paddedString[..i + 1] == paddedString[..i] + [chr];
      clean := clean + [if chr in Characters then chr else Replacement];
      i := i + 1;
    }
    assert paddedString[..i] == paddedString;
    SanitizedFlaps(paddedString);
  }

  /** The message for `text`: as many characters as the grid has cells, each a flap. */
  function FittedMessage(text: string): (message: string)
    ensures |message| == |SplitLines(text)| * Width(SplitLines(text))
    ensures forall i :: 0 <= i < |message| ==> message[i] in Characters
  {
    var lines := SplitLines(text);
    PaddedLength(lines, Width(lines));
    SanitizedFlaps(Padded(lines, Width(lines)));
    Sanitized(Padded(lines, Width(lines)))
  }
}
