# potoo utilities: duration formatting and the watch frame

This project models the two self-contained pieces of logic in `potoo/util.py`
and proves properties of them.

- `format_duration` (module `Duration`, `duration.dfy`) renders a number of
  seconds as `MM:SS` or `H:MM:SS`. When the input was a Python float, it adds a
  `.mmm` millisecond suffix. A negative input is rendered as `-` followed by
  the rendering of its absolute value. The input is the datatype
  `Seconds = Whole(n) | Fractional(n, ms)`. `Whole(n)` is a Python int.
  `Fractional(n, ms)` is the float `n + ms/1000`, with `0 <= ms <= 999` the
  already-rounded millisecond remainder. The `isinstance(secs, float)` test
  thus becomes the choice of constructor. The proofs are about the rendering:
  - its shape (`MM:SS` below an hour, `H:MM:SS` with unclamped hours from an
    hour on);
  - the decomposition of the seconds into hours, minutes and seconds;
  - the suffix;
  - the sign;
  - a parser `ParseDuration` that reads every rendering back
    (`FormatRoundTrip`), so distinct inputs never render alike
    (`FormatInjective`);
  - the docstring's examples.
- One frame of `watch` (module `Watch`, `watch.dfy`). The sample text ends in
  a line break (one is added if missing) and is split at line breaks. A
  timestamp row and a blank row are put in front. Exactly `nrows` rows are
  drawn. Each row is its line cut to `ncols` characters, or empty, and then
  padded with spaces to exactly `ncols`. A line break follows every row except
  the last. `RenderFrame` is the `for row_i in range(nrows)` loop as a method.
  It is proved against `Cell`, which gives the character the terminal shows at
  each row and column. The proofs also show that `'\n'.join` and `split('\n')`
  are inverse (`SplitThenJoin`, `JoinThenSplit`). So when at least one row is
  drawn and the timestamp holds no line break, the printed text splits back
  into exactly the drawn rows.

## Model

| member | source | states |
|---|---|---|
| `Duration.IsNegative` | potoo/util.py:96 | for a valid input, the `secs < 0` test holds exactly when the value is below zero |
| `Duration.Negate` | potoo/util.py:96-97 | `-secs` stays valid, keeps int-or-float, negates the exact value, and a negative input becomes non-negative |
| `Duration.Decompose` | potoo/util.py:99-101 | `s < 60`, `m < 60`, `h*3600 + m*60 + s == int(secs)`, and `h == 0` exactly when `int(secs) < 3600` |
| `Duration.Decimal` | potoo/util.py:102 | the rendering is non-empty digits whose decimal value is the number; one digit exactly below 10, at most two below 100; it starts with `0` only for zero, so there is no extra leading zero |
| `Duration.Pad2` | potoo/util.py:102 | `'%02.0f'` on a field gives at least two digits denoting the field; exactly two below 100; a longer field has no leading zero |
| `Duration.Pad3` | potoo/util.py:105-107 | the millisecond suffix is exactly three digits denoting the milliseconds |
| `Duration.ClockText` | potoo/util.py:102-104 | the clock text has at least 5 characters, starts with a digit and holds only digits and colons |
| `Duration.FormatDuration` | potoo/util.py:96-108 | the rendering has at least 5 characters and starts with `-` exactly when the input is negative |
| `Duration.ClockShape` | potoo/util.py:99-104 | below an hour: `MM:SS` with two-digit minutes and seconds fields of the right values; from an hour on: `H:MM:SS` whose hours field (at least two digits, unclamped) denotes `int(secs) // 3600` and is exactly two digits or has no leading zero |
| `Duration.WholeHasNoPoint` | potoo/util.py:105-107 | an int input's rendering contains no `.` |
| `Duration.FractionalSuffix` | potoo/util.py:105-107 | a float input's rendering ends in `.` and exactly three digits, `.000` included, and they denote the millisecond remainder of the absolute value |
| `Duration.FractionalTail` | potoo/util.py:105-107 | a non-negative float's rendering ends in `.` and three digits denoting its millisecond remainder |
| `Duration.NegativeIsMinusAbs` | potoo/util.py:96-97 | a negative input renders as `-` followed by the rendering of any valid input of the same kind (int or float) whose value is its absolute value |
| `Duration.ClockRoundTrip` | potoo/util.py:99-104 | the `MM:SS`/`H:MM:SS` text reads back as the seconds it was built from |
| `Duration.UnsignedRoundTrip` | potoo/util.py:99-107 | a non-negative rendering reads back as its input, int or float |
| `Duration.FormatRoundTrip` | potoo/util.py:96-108 | every rendering reads back as its input |
| `Duration.FormatInjective` | potoo/util.py:96-108 | two valid inputs with the same rendering are equal |
| `Duration.MinuteExamples` | potoo/util.py:75-80 | 0, 1 and 100 render as `00:00`, `00:01`, `01:40` |
| `Duration.HourExample` | potoo/util.py:81-82 | 10000 renders as `02:46:40` |
| `Duration.UnclampedHoursExample` | potoo/util.py:83-84 | 1000000 renders as `277:46:40` |
| `Duration.ZeroFloatExample` | potoo/util.py:85-86 | the float 0.0 renders as `00:00.000` |
| `Duration.HalfSecondExample` | potoo/util.py:87-88 | 0.5 renders as `00:00.500` |
| `Duration.FractionalHourExample` | potoo/util.py:89-90 | 12345.6789, with its milliseconds already rounded to 679, renders as `03:25:45.679` |
| `Duration.NegativeMinuteExample` | potoo/util.py:91-92 | -1 renders as `-00:01` |
| `Duration.NegativeHourExample` | potoo/util.py:93-94 | -10000 renders as `-02:46:40` |
| `Watch.EnsureNewline` | potoo/util.py:121-122 | the sample ends in a line break afterwards; a sample that already ends in one is unchanged, any other gets exactly one line break appended |
| `Watch.SplitLines` | potoo/util.py:123 | `split('\n')` gives one more piece than there are line breaks, and no piece holds a line break |
| `Watch.Truncate` | potoo/util.py:131 | `line[:ncols]` is a prefix of the line, as long as the line or as `ncols`, whichever is shorter |
| `Watch.Spaces` | potoo/util.py:134 | `' ' * k` is `k` spaces |
| `Watch.FrameLines` | potoo/util.py:123-127 | the frame's lines start with the timestamp and a blank line, the last line is empty, and no line after the first two holds a line break |
| `Watch.SplitThenJoin` | potoo/util.py:123 | joining the split pieces with line breaks gives back the text |
| `Watch.JoinThenSplit` | potoo/util.py:123 | splitting pieces joined with line breaks gives back the pieces, when none holds a line break |
| `Watch.SplitEndsEmpty` | potoo/util.py:121-123 | a text ending in a line break splits into at least two pieces, the last one empty |
| `Watch.FrameLinesShape` | potoo/util.py:121-127 | the frame's lines are the timestamp, a blank line, then the sample's lines, which join back to the sample with its final break, and the last line is empty |
| `Watch.RowFillsWidth` | potoo/util.py:130-134 | one row is exactly `ncols` wide, shows its line's characters where there are some, and spaces elsewhere |
| `Watch.ScreenGrows` | potoo/util.py:135-138 | printing a row followed by a line break unless it is the last keeps the output equal to the rows joined by line breaks |
| `Watch.RenderFrame` | potoo/util.py:121-139 | exactly `nrows` rows, each exactly `ncols` wide; every cell of the frame is the character of its line at that column, or a space; lines past `nrows` are dropped; the printed text is the rows with a line break between consecutive rows, and when the timestamp has no line break it splits back into exactly the rows |
| `Watch.ScreenLength` | potoo/util.py:129-139 | the printed text of `nrows >= 1` rows of width `ncols` has length `nrows*(ncols+1) - 1` |

## Left out

- The `watch` loop itself. Left out are the `while True` polling, the
  `stty`/`tput` shell calls, printing and flushing, `time.sleep`,
  `datetime.now`, the `KeyboardInterrupt`/`finally` teardown and the catching
  of exceptions from `f()` (potoo/util.py:113-120, 128, 140-146). These are
  terminal, clock and process side effects. One frame is modelled, with the
  sample text (or the traceback text) and the timestamp text given as
  parameters.
- The terminal size is a parameter. `ncols` and `nrows` are natural numbers,
  because the terminal-size query never reports a negative size. A negative
  `ncols` would make Python's `[:ncols]` cut from the end; that case is not
  modelled.
- Float arithmetic in `format_duration` (`round(secs % 1, 3)` and `'%.3f'`,
  potoo/util.py:106-107) is left out. The milliseconds arrive already rounded
  as an integer `0..999`. So the case where the rounded remainder reaches
  `1.0` and renders `.000` without a carry is not modelled. Neither is the
  precision of very large floats.
- Duration.Pad2: renders the exact integer. Python's `'%02.0f'` first converts
  the field to a float, so hours fields above 2^53 would be rounded there, and
  an hours field too large for a float raises `OverflowError`
  (potoo/util.py:102). The model renders every field.
- Duration.IsNegative: the sign is tested on the unrounded float
  (potoo/util.py:96), but the milliseconds are rounded later
  (potoo/util.py:106). So `format_duration(-0.0004)` and
  `format_duration(-0.9996)` give `'-00:00.000'`: a sign in front of a zero
  rendering. No valid `Seconds` renders this way, because the model's sign
  test is on the already-rounded value.
- Duration.FormatDuration: infinities and NaN are not modelled. For them
  `int(secs)` raises (potoo/util.py:99); every `Seconds` is finite.
- `shell`, `mkdir_p`, `timed`, `timed_format`, `timed_print`, `or_else`,
  `puts`, `attrs`, `singleton`, the terminal-size lambdas and the `use_curses`
  context manager (potoo/util.py:12-70, 184-206). They wrap processes, the
  clock, reflection or the curses library. The commented-out curses `watch`
  (potoo/util.py:149-181) is dead code.
- potoo/plot.py and potoo/numpy.py are not part of this model. They configure
  and call plotting, notebook and array-printing libraries.
