# Bingo card generator: a verified model of its core

`bingo_aegee.py` produces printable 5x5 bingo cards. It reads phrases from the
first column of a CSV file. For every card it samples 24 of them, lays them out
in a 5x5 grid around a reserved centre cell, and writes the text of each cell
over a PDF template. The text is wrapped greedily into at most six lines, and an
overflowing last line is cut back with an ellipsis.

This project models the parts of that program that are list and string logic.
It proves what they compute.

- `text.dfy` (module `Text`) covers the Python string primitives the program
  relies on: the `str.isspace` character set, `str.strip()` and `str.split()`
  with no separator. It also defines `Unwords`, words joined by single spaces.
  That describes the line `wrap_text` builds at line 76 with
  `(current + " " + w).strip()`, and `Wrap.CandidateLine` proves the two equal.
- `phrases.dfy` (module `Phrases`) covers `read_first_column` after the CSV
  reader. Its row filter and its order-preserving de-duplication are two loops
  of one method. That method is proved equal to the spec functions `Kept` and
  `Dedup`.
- `grid.dfy` (module `Grid`) covers `make_grid` and the rule in
  `make_overlay_page_pdf` that decides which cells get text:
  - the random sample is an input, `chosen`;
  - the grid is filled cell by cell by nested loops;
  - the draw loop is proved to visit the cells in row-major order and to skip
    the centre in "keep" mode and every None cell. A cell holding "" is still
    drawn.
- `wrap.dfy` (module `Wrap`) covers `wrap_text`. The font metric `stringWidth`
  is a parameter `width: string -> nat`. The word loop, with its early `break`
  at the line cap, and the ellipsis loop are methods. They are proved equal to
  a reference definition: greedy chunking (`Chunks`) cut to the cap, with the
  last line trimmed (`TrimLast`).
- `seqs.dfy` (module `Seqs`) holds the no-repeats predicate `Distinct` and the
  small sequence regrouping facts the other proofs share.
- `card.dfy` (module `Card`) ties the pieces together the way
  `export_bingos_pdf_from_pdf_template` and the overlay use them.

The model follows the code in two places where a reader might expect
otherwise:

- A line of the wrapped text may be wider than the cell. That happens when it
  is a single word that does not fit, and it is not the last line: only the
  last line is trimmed.
- `make_grid` checks the length of the list it is given, not the number of
  distinct entries. The list it gets from the loader is already de-duplicated.

## Model

| member | source | states |
|---|---|---|
| Text.StripSpec | bingo_aegee.py:26 | `strip()` leaves no whitespace at either end and never lengthens the text. It yields "" exactly when the text is all whitespace. It leaves a trimmed text unchanged. |
| Text.StripLeftSpec | bingo_aegee.py:26 | The left strip removes exactly the longest all-whitespace prefix. |
| Text.StripRightSpec | bingo_aegee.py:26 | The right strip removes exactly the longest all-whitespace suffix. |
| Text.Split | bingo_aegee.py:68 | `split()` yields only non-empty words without whitespace. It yields no words exactly when the text is all whitespace. |
| Text.SplitUnwords | bingo_aegee.py:68 | Splitting words joined by single spaces gives back exactly those words. |
| Text.UnwordsTrimmed | bingo_aegee.py:76 | Words joined by spaces form a non-empty line with no whitespace at either end. |
| Wrap.CandidateLine | bingo_aegee.py:76 | The candidate `(current + " " + w).strip()` is the words of the current line plus `w`, joined by single spaces. This holds also when the line is empty. |
| Phrases.ReadFirstColumn | bingo_aegee.py:19-37 | Both loops together return `Dedup(Kept(rows))`: the filtered first columns with later duplicates dropped. |
| Phrases.KeptClean | bingo_aegee.py:23-28 | Every kept phrase is non-empty and has no surrounding whitespace. The filter keeps at most as many phrases as there are rows. |
| Phrases.KeptMembers | bingo_aegee.py:23-28 | A phrase is kept if and only if some non-empty row's first column strips to it and it is not blank. |
| Phrases.KeptAppend | bingo_aegee.py:23-28 | The filter works row by row: filtering `a + b` is filtering `a`, then `b`. |
| Phrases.Dedup | bingo_aegee.py:30-37 | The result has no duplicates, holds exactly the input's strings, and is no longer than the input. |
| Phrases.DedupFirstOccurrenceOrder | bingo_aegee.py:30-37 | The output lists the distinct strings in the order of their first occurrence in the input. |
| Phrases.DedupOfDistinct | bingo_aegee.py:30-37 | A list without duplicates is returned unchanged. |
| Grid.MakeGrid | bingo_aegee.py:41-57 | Fails with `InsufficientItems(24, n)` exactly when fewer than 24 items are given. Otherwise the loops build `Layout(chosen, ...)`. |
| Grid.LayoutShape | bingo_aegee.py:48-53 | The grid is 5x5. The centre holds `free_text` in "free" mode and None in any other mode. |
| Grid.LayoutReadsSample | bingo_aegee.py:49-56 | Read row by row with the centre skipped, the 24 cells are `Some(chosen[0])` … `Some(chosen[23])` in order. |
| Grid.LayoutDistinct | bingo_aegee.py:49-56 | When the sample has no repeats, no two non-centre cells are equal. |
| Grid.LayoutFromItems | bingo_aegee.py:46-56 | Every non-centre cell holds a phrase of the item list. |
| Grid.SampleDistinct | bingo_aegee.py:46 | A sample drawn without replacement from a list without duplicates has no duplicates. |
| Grid.DrawnCells | bingo_aegee.py:146-153 | The cell loop yields the placements `DrawnUpTo(g, mode, 25)`: every cell in row-major order, except the centre in "keep" mode and every None cell. |
| Grid.DrawnOfLayout | bingo_aegee.py:146-153 | On a grid from `make_grid`, the drawn texts are the 24 sampled phrases in sample order. In "free" mode only, the placeholder sits between the 12th and 13th. The centre is drawn only in "free" mode. |
| Grid.DrawsCenterOnlyWhenFree | bingo_aegee.py:148-153 | On a grid from `make_grid`, no drawn placement is the centre cell unless the mode is "free". |
| Wrap.WrapText | bingo_aegee.py:61-96 | The method, with its early `break`, returns `Wrapped(text, width, maxWidth, maxLines)`. |
| Wrap.FillGreedy | bingo_aegee.py:72-87 | From any state the word loop can reach, the lines it closes, plus the final line when there is room, are the first `maxLines` greedy lines. When `maxLines < 1` they are at most one line. |
| Wrap.EllipsisTrim | bingo_aegee.py:90-94 | The trim loop terminates (the line gets one character shorter each round) and returns `TrimLast(line)`. |
| Wrap.TrimLastSpec | bingo_aegee.py:90-94 | The trimmed line fits or is at most one character long. The line is unchanged exactly when it fits or is that short. Otherwise it is a shorter, non-empty prefix of the line followed by the ellipsis. |
| Wrap.LineEndGreedy | bingo_aegee.py:75-82 | A line takes every next word that keeps it within `maxWidth`. It is closed only at a word that would make it too wide. |
| Wrap.ChunksCover | bingo_aegee.py:75-87 | The greedy lines, concatenated, are exactly the words: none is lost or reordered. |
| Wrap.ChunksFit | bingo_aegee.py:75-82 | Every greedy line has at least one word. A line of two or more words measures at most `maxWidth`. |
| Wrap.ChunksMaximal | bingo_aegee.py:75-82 | Adding the first word of the next line to a line would make it wider than `maxWidth`. |
| Wrap.ChunksResplit | bingo_aegee.py:75-82 | Each greedy line, split again, gives back its words. |
| Wrap.WrappedCount | bingo_aegee.py:68-96 | Text without words gives `[""]`. A cap of 0 or less gives `[]`. Otherwise there are between 1 and `maxLines` lines. |
| Wrap.WrappedLines | bingo_aegee.py:75-96 | Every line but the last splits back into its greedy chunk. Each such line fits unless it is a single word. The last line is the trimmed greedy line. There are `min(#chunks, maxLines)` lines. |
| Wrap.WrappedLastFits | bingo_aegee.py:90-94 | After the trim the last returned line fits or is at most one character long. |
| Wrap.Head | bingo_aegee.py:96 | `lines[:max_lines]` is always a prefix of the lines. A bound of 0 up to the length keeps that many lines; a larger bound keeps them all. A negative bound `-n` drops the last `n` lines, and leaves nothing when there are no more than `n`. |
| Card.CardDistinct | bingo_aegee.py:206-220 | A card built from the loader's list never repeats a phrase. |
| Card.CardFromRows | bingo_aegee.py:206-220 | Every non-centre cell of such a card is the stripped first column of some CSV record. |
| Card.CellLines | bingo_aegee.py:163 | With the cap of six lines, a cell text without words gives `[""]`. Any other text gives 1 to 6 lines, and the last one fits or is a single character. |

## Left out

- CSV and file I/O: opening the file and `csv.reader`. The records are an input: a sequence of rows, each a sequence of column strings.
- `random.Random` and `rng.sample`. The sample is the input `chosen`. `MakeGrid` requires it to be a draw without replacement from the items (`IsSample`) whenever there are at least 24 items.
- The font metrics `stringWidth`, `getAscent` and `getDescent` are foreign calls. The width is the parameter `width`; font name and size are fixed for a call, so they are folded into it.
- `max_width` is a float in the source and a `nat` here.
- All floating-point geometry of `make_overlay_page_pdf`: margins, cell bounds, the `usable_w` fallback, and vertical and horizontal centring. Also the canvas drawing, and the `ValueError` for margins that leave no table area.
- PDF reading, merging and writing with pypdf, the page-count loop's I/O, and the `FileNotFoundError` and empty-template checks of `export_bingos_pdf_from_pdf_template`.
- `main`, argparse and the final message.
- Wrap.WrapText: the width function is assumed to be a pure function of the text. A metric that varied between calls is not modelled.
