/**
 * One frame of `watch` from potoo/util.py: the sample text, a timestamp
 * header and a blank row laid out on an `ncols` by `nrows` terminal, every
 * row cut to the width and padded with spaces so that it overwrites whatever
 * the previous frame left on screen.
 *
 * The sample, the timestamp and the terminal size are parameters; the shell
 * calls, the clock, the sleep and the interrupt handling are not modelled.
 */
module Watch {

  /** Whether `s` is some text followed by a final line break. */
  predicate EndsWithNewline(s: string)
  {
    |s| > 0 && s[|s| - 1] == '\n'
  }

  /** The sample with a line break appended unless it already ends in one. */
  function EnsureNewline(s: string): (r: string)
    ensures EndsWithNewline(r)
    ensures |s| <= |r| <= |s| + 1 && r[..|s|] == s
    ensures EndsWithNewline(s) ==> r == s
    ensures !EndsWithNewline(s) ==> r == s + "\n"
  {
    if EndsWithNewline(s) then s else s + "\n"
  }

  /** The number of line breaks in `s`. */
  function NewlineCount(s: string): nat {
    if s == [] then 0 else (if s[0] == '\n' then 1 else 0) + NewlineCount(s[1..])
  }

  /** Python's `s.split('\n')`: the pieces between line breaks, an empty
      piece wherever two breaks meet or a break ends the string. */
  function SplitLines(s: string): (r: seq<string>)
    ensures |r| == NewlineCount(s) + 1
    ensures forall i :: 0 <= i < |r| ==> '\n' !in r[i]
  {
    if s == [] then [""]
    else
      var rest := SplitLines(s[1..]);
      if s[0] == '\n' then [""] + rest
      else [[s[0]] + rest[0]] + rest[1..]
  }

  /** The pieces with a line break between consecutive ones, as Python's
      `str.join` with a line-break separator. */
  function JoinLines(pieces: seq<string>): string {
    if |pieces| == 0 then ""
    else if |pieces| == 1 then pieces[0]
    else pieces[0] + "\n" + JoinLines(pieces[1..])
  }

  /** The first `ncols` characters of a line, or the whole line if shorter. */
  function Truncate(line: string, ncols: nat): (r: string)
    ensures |r| <= ncols && |r| <= |line|
    ensures |r| == ncols || |r| == |line|
    ensures r == line[..|r|]
  {
    if |line| <= ncols then line else line[..ncols]
  }

  /** A run of `k` spaces. */
  function Spaces(k: nat): (r: string)
    ensures |r| == k
    ensures forall i :: 0 <= i < k ==> r[i] == ' '
  {
    seq(k, _ => ' ')
  }

  /** The lines a frame draws from: the timestamp, a blank row, then the
      sample split at its line breaks after a final break is ensured. */
  function FrameLines(sample: string, timestamp: string): (lines: seq<string>)
    ensures |lines| >= 4 && lines[0] == timestamp && lines[1] == ""
    ensures lines[|lines| - 1] == ""
    ensures forall i :: 2 <= i < |lines| ==> '\n' !in lines[i]
  {
    SplitEndsEmpty(EnsureNewline(sample));
    [timestamp, ""] + SplitLines(EnsureNewline(sample))
  }

  /** What the terminal shows at row `i`, column `j`: the character of line
      `i` at column `j` if there is one, a space otherwise. */
  function Cell(lines: seq<string>, i: nat, j: nat): char {
    if i < |lines| && j < |lines[i]| then lines[i][j] else ' '
  }

  // ---------------------------------------------------------------------------
  // Split and join are inverse

  lemma {:induction false} SplitThenJoin(s: string)
    ensures JoinLines(SplitLines(s)) == s
  {
    if s != [] {
      var rest := SplitLines(s[1..]);
      SplitThenJoin(s[1..]);
      if s[0] == '\n' {
        assert SplitLines(s) == [""] + rest;
        assert ([""] + rest)[1..] == rest;
      } else {
        var r := SplitLines(s);
        assert r == [[s[0]] + rest[0]] + rest[1..];
        if |rest| == 1 {
          assert r == [[s[0]] + rest[0]];
        } else {
          assert r[1..] == rest[1..];
          assert JoinLines(rest) == rest[0] + "\n" + JoinLines(rest[1..]);
        }
        assert s == [s[0]] + s[1..];
      }
    }
  }

  /** Splitting a piece without line breaks in front of `t` glues it to
      the first piece of `t`. */
  lemma {:induction false} SplitPrefix(p: string, t: string)
    requires '\n' !in p
    ensures SplitLines(p + t) == [p + SplitLines(t)[0]] + SplitLines(t)[1..]
  {
    if p != [] {
      assert (p + t)[1..] == p[1..] + t;
      assert '\n' !in p[1..] by {
        forall i | 0 <= i < |p[1..]| ensures p[1..][i] != '\n' {
          assert p[1..][i] == p[i + 1];
        }
      }
      SplitPrefix(p[1..], t);
      assert (p + t)[0] == p[0];
      assert [p[0]] + (p[1..] + SplitLines(t)[0]) == p + SplitLines(t)[0];
    } else {
      var r := SplitLines(t);
      assert p + t == t && p + r[0] == r[0];
      assert r == [r[0]] + r[1..];
    }
  }

  lemma {:induction false} JoinThenSplit(pieces: seq<string>)
    requires |pieces| >= 1
    requires forall i :: 0 <= i < |pieces| ==> '\n' !in pieces[i]
    ensures SplitLines(JoinLines(pieces)) == pieces
  {
    if |pieces| == 1 {
      SplitPrefix(pieces[0], "");
      assert pieces[0] + "" == pieces[0];
      assert pieces == [pieces[0]];
    } else {
      var tail := JoinLines(pieces[1..]);
      assert JoinLines(pieces) == pieces[0] + ("\n" + tail);
      JoinThenSplit(pieces[1..]);
      SplitPrefix(pieces[0], "\n" + tail);
      var after := SplitLines("\n" + tail);
      assert after == [""] + pieces[1..] by {
        assert ("\n" + tail)[1..] == tail;
      }
      assert after[0] == "" && after[1..] == pieces[1..];
      assert pieces[0] + after[0] == pieces[0];
      assert pieces == [pieces[0]] + pieces[1..];
    }
  }

  lemma {:induction false} JoinLinesSnoc(pieces: seq<string>, p: string)
    requires |pieces| >= 1
    ensures JoinLines(pieces + [p]) == JoinLines(pieces) + "\n" + p
  {
    if |pieces| == 1 {
      assert (pieces + [p])[1..] == [p];
    } else {
      assert (pieces + [p])[1..] == pieces[1..] + [p];
      JoinLinesSnoc(pieces[1..], p);
    }
  }

  // ---------------------------------------------------------------------------
  // The lines of a frame

  /** A sample that ends in a line break splits into at least two pieces,
      the last of them empty. */
  lemma {:induction false} SplitEndsEmpty(s: string)
    requires EndsWithNewline(s)
    ensures |SplitLines(s)| >= 2 && SplitLines(s)[|SplitLines(s)| - 1] == ""
  {
    if |s| > 1 {
      SplitEndsEmpty(s[1..]);
    }
  }

  /** The timestamp heads the frame, a blank row follows, the sample comes
      back unchanged (up to the ensured final break) when the rest is joined,
      and the last line is empty. */
  lemma FrameLinesShape(sample: string, timestamp: string)
    ensures var lines := FrameLines(sample, timestamp);
      && |lines| >= 4
      && lines[0] == timestamp && lines[1] == ""
      && lines[|lines| - 1] == ""
      && JoinLines(lines[2..]) == EnsureNewline(sample)
  {
    var lines := FrameLines(sample, timestamp);
    SplitEndsEmpty(EnsureNewline(sample));
    SplitThenJoin(EnsureNewline(sample));
    assert lines[2..] == SplitLines(EnsureNewline(sample));
  }

  // ---------------------------------------------------------------------------
  // Rendering one frame

  /** Row `row` shows line `i` of `lines` on a terminal `ncols` wide. */
  predicate ShowsLine(row: string, lines: seq<string>, i: nat, ncols: nat) {
    |row| == ncols && forall j :: 0 <= j < ncols ==> row[j] == Cell(lines, i, j)
  }

  /** The row printed for index `i`: its line cut to `ncols`, or nothing when
      the lines have run out, then as many spaces as the width has left. */
  lemma RowFillsWidth(lines: seq<string>, i: nat, ncols: nat, line: string, row: string)
    requires line == if i < |lines| then Truncate(lines[i], ncols) else ""
    requires row == line + Spaces(if ncols - |line| > 0 then ncols - |line| else 0)
    ensures ShowsLine(row, lines, i, ncols)
    ensures (i < |lines| ==> '\n' !in lines[i]) ==> '\n' !in row
  {
  }

  /** Every row drawn so far shows its line, and holds no line break when
      the lines it draws from hold none. */
  predicate Drawn(rows: seq<string>, lines: seq<string>, ncols: nat) {
    forall i :: 0 <= i < |rows| ==>
      && ShowsLine(rows[i], lines, i, ncols)
      && ((forall k :: 0 <= k < |lines| ==> '\n' !in lines[k]) ==> '\n' !in rows[i])
  }

  lemma DrawnSnoc(rows: seq<string>, lines: seq<string>, ncols: nat, row: string)
    requires Drawn(rows, lines, ncols)
    requires ShowsLine(row, lines, |rows|, ncols)
    requires (|rows| < |lines| ==> '\n' !in lines[|rows|]) ==> '\n' !in row
    ensures Drawn(rows + [row], lines, ncols)
  {
    var next := rows + [row];
    forall i | 0 <= i < |next|
      ensures ShowsLine(next[i], lines, i, ncols)
      ensures (forall k :: 0 <= k < |lines| ==> '\n' !in lines[k]) ==> '\n' !in next[i]
    {
      if i < |rows| {
        assert next[i] == rows[i];
      }
    }
  }

  /** Printing one more row, followed by a line break unless it is the last,
      keeps the text equal to the rows joined by line breaks. */
  lemma ScreenGrows(rows: seq<string>, row: string, screen: string, nrows: nat)
    requires |rows| < nrows
    requires screen == JoinLines(rows) + (if 0 < |rows| then "\n" else "")
    ensures screen + row + (if |rows| < nrows - 1 then "\n" else "")
         == JoinLines(rows + [row]) + (if |rows| + 1 < nrows then "\n" else "")
  {
    if |rows| > 0 {
      JoinLinesSnoc(rows, row);
    } else {
      assert rows + [row] == [row];
    }
  }

  /** The rows one pass of the loop over the terminal's rows prints, and
      the text it writes: the rows with a line break after every row but
      the last. */
  method RenderFrame(sample: string, timestamp: string, ncols: nat, nrows: nat)
    returns (rows: seq<string>, screen: string)
    ensures |rows| == nrows
    ensures forall i :: 0 <= i < nrows ==> |rows[i]| == ncols
    ensures forall i, j :: 0 <= i < nrows && 0 <= j < ncols ==>
              rows[i][j] == Cell(FrameLines(sample, timestamp), i, j)
    ensures screen == JoinLines(rows)
    ensures nrows > 0 && '\n' !in timestamp ==> SplitLines(screen) == rows
  {
    var s := sample;
    if !EndsWithNewline(s) {
      s := s + "\n";
    }
    var lines := SplitLines(s);
    lines := [timestamp, ""] + lines;
    assert lines == FrameLines(sample, timestamp);

    rows, screen := [], "";
    var rowI := 0;
    while rowI < nrows
      invariant rowI <= nrows && |rows| == rowI
      invariant Drawn(rows, lines, ncols)
      invariant screen == JoinLines(rows) + (if 0 < rowI < nrows then "\n" else "")
    {
      var line: string;
      if rowI < |lines| {
        line := Truncate(lines[rowI], ncols);
      } else {
        line := "";
      }
      var trailingSpace := Spaces(if ncols - |line| > 0 then ncols - |line| else 0);
      var row := line + trailingSpace;
      RowFillsWidth(lines, rowI, ncols, line, row);
      DrawnSnoc(rows, lines, ncols, row);
      ScreenGrows(rows, row, screen, nrows);
      rows := rows + [row];
      screen := screen + row + (if rowI < nrows - 1 then "\n" else "");
      rowI := rowI + 1;
    }
    forall i | 0 <= i < nrows
      ensures |rows[i]| == ncols
      ensures forall j :: 0 <= j < ncols ==> rows[i][j] == Cell(FrameLines(sample, timestamp), i, j)
    {
      assert ShowsLine(rows[i], lines, i, ncols);
    }
    if nrows > 0 && '\n' !in timestamp {
      assert forall k :: 0 <= k < |lines| ==> '\n' !in lines[k];
      forall i | 0 <= i < |rows| ensures '\n' !in rows[i] {
      }
      JoinThenSplit(rows);
    }
  }

  /** The screen text of a frame has one line break between consecutive rows
      and nothing else besides the rows. */
  lemma {:induction false} ScreenLength(rows: seq<string>, ncols: nat)
    requires |rows| >= 1
    requires forall i :: 0 <= i < |rows| ==> |rows[i]| == ncols
    ensures |JoinLines(rows)| == |rows| * (ncols + 1) - 1
  {
    if |rows| > 1 {
      ScreenLength(rows[1..], ncols);
    }
  }
}
