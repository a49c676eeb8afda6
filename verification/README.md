# Columnify, modelled in Dafny

Columnify turns a scanned two-column PDF into a one-column PDF. Each source
page is rotation-normalised, its MediaBox (the page boundary of section
14.11.2 of ISO 32000-1) is cut at the midpoint of its width, and the left
half and then the right half are appended to the output as two new pages
sharing the source page's content. Around that loop sit two string rules:
the default output name offered when a file is chosen, and the readiness
test that enables the "Process PDF" button.

This project models that core as pure functions and one method:

- `geometry.dfy` (module `Geometry`): `Rect` over exact reals, the split
  line, the split into left and right views, and gluing the views back.
- `assembly.dfy` (module `Assembly`): the page loop of `run_logic` as the
  method `RunLogic`, building the output page sequence and the progress
  reports under loop invariants, with the abort path when rotation
  normalisation fails.
- `progress.dfy` (module `Progress`): the progress-bar value and the status
  line of each iteration, with a parser that reads a status line back.
- `names.dfy` (module `Names`): Python's `strip`, `lower`, `endswith` and
  `replace`, the readiness rule, the default output name, and choosing a
  file.
- `decimal.dfy` (module `Decimal`): decimal rendering of numbers as the
  f-string does it, and its inverse.
- `optional.dfy` (module `Optional`): `Option`.

Rotation normalisation is done by the PDF library and is not visible here.
It is a parameter of `RunLogic`: a function from a source page to the
normalised page, or `None` when the library raises, which aborts the run.
A source page carries an opaque `content` identity besides its rotation and
MediaBox, so normalisation may succeed on one page and fail on another of the
same size and rotation, as a damaged content stream makes it do.
The chosen file's base name is also a parameter (`filename`), since path
handling is not modelled.

Four behaviours of the code are worth stating up front. The code never
checks that a MediaBox is well formed, so `Split` accepts any box; its
guarantees hold for every box, and strict betweenness of the split line is
stated for boxes whose right edge lies to the right of their left edge. The progress callback receives a
percentage and a status line, not a (done, total) pair. No content-aware
gutter detection exists despite the UI label: the split is always the
fixed midpoint of the full width. The default name is built by a
case-sensitive replacement while the readiness rule lowercases, so a file
named "Book.PDF" is offered "Book.PDF" itself as its output name and that
name is accepted; since the output is written next to the input
(Columnify.py:100-101), such a run writes over its own input file.

## Model

| member | source | states |
|---|---|---|
| Geometry.SplitX | Columnify.py:111-119 | the split line is equidistant from the left and right edges, and lies strictly between them whenever the right edge is to the right of the left edge |
| Geometry.Split | Columnify.py:113-130 | left keeps the lower-left corner, right keeps the upper-right corner, both meet at the split line and keep the bottom and top edges, each has half the width and the full height, and their areas sum to the original area |
| Geometry.JoinSplit | Columnify.py:124-130 | gluing the two views back together gives exactly the original box |
| Geometry.SplitCoversExactly | Columnify.py:124-130 | a point is in the box exactly when it is in one of the views, and a point in both lies on the split line (no gap, no overlap beyond the shared edge) |
| Geometry.SplitExample | Columnify.py:110-130 | a 200 by 100 page splits into (0,0)-(100,100) and (100,0)-(200,100) |
| Assembly.RunLogic | Columnify.py:98-142 | the run completes exactly when normalisation succeeds on every page; then the output has 2N pages, page 2k is the left view and page 2k+1 the right view of source page k, with one report per page; otherwise it stops at the first failing page with the reports of the pages before it and no document; report k is the percent and status line of page k; an empty input gives an empty document and no reports |
| Assembly.InterleavedOrder | Columnify.py:103-130 | every output page n is the left (even n) or right (odd n) view of source page n/2, and source order is preserved |
| Assembly.InterleavedRejoins | Columnify.py:123-130 | each left/right pair of output pages glues back into its source page's MediaBox |
| Assembly.ReportsProgress | Columnify.py:103-134 | over a run the progress value stays within 0..100, never decreases, is 100 after the last page; status line k reads back as (k+1, total), so no two repeat |
| Assembly.OnePageScenario | Columnify.py:103-130 | a one-page 200 by 100 document yields exactly the two pages (0,0)-(100,100) and (100,0)-(200,100) |
| Assembly.TwoPageReports | Columnify.py:133-134 | a two-page run reports 50 with "Processing: 1 / 2 pages", then 100 with "Processing: 2 / 2 pages" |
| Assembly.CorruptSecondPage | Columnify.py:103-142 | three pages of one size and rotation whose second cannot be normalised: the run aborts at page 1 after the single report 33 with "Processing: 1 / 3 pages", and writes nothing |
| Progress.Percent | Columnify.py:133 | the progress value lies in 0..100 and is 100 on the last page |
| Progress.PercentIsQuotient | Columnify.py:133 | the real-valued percent equals the integer quotient (i+1)*100 div total |
| Progress.PercentMonotone | Columnify.py:133 | a later page never has a smaller progress value |
| Progress.StatusRoundTrip | Columnify.py:134 | reading the status line of page i of total back gives (i+1, total) |
| Progress.StatusTextInjective | Columnify.py:134 | distinct (page, total) pairs give distinct status lines |
| Decimal.NatToString | Columnify.py:134 | a number is rendered as a non-empty run of decimal digits with no leading zero |
| Decimal.ParseNatToString | Columnify.py:134 | reading a rendered number back gives the number |
| Names.TrimStart | Columnify.py:80 | the result is the suffix of the input starting at its first non-whitespace character |
| Names.TrimEnd | Columnify.py:80 | the result is the prefix of the input ending at its last non-whitespace character |
| Names.Strip | Columnify.py:80 | the stripped name neither starts nor ends with whitespace |
| Names.StripIsSlice | Columnify.py:80 | the stripped name is a slice of the entry with only whitespace around it |
| Names.StripIdempotent | Columnify.py:80 | stripping twice is stripping once |
| Names.LowerEndsWithPdf | Columnify.py:81 | the lowercased name ends in ".pdf" exactly when the name ends in a dot followed by p, d, f in either case |
| Names.IsReady | Columnify.py:78-87 | processing is enabled exactly when an input file is chosen and the stripped entry is longer than four characters and ends in a dot followed by p, d, f in either case |
| Names.IsReadyIgnoresPadding | Columnify.py:80-81 | blanks around the entry do not change the readiness decision |
| Names.ReplaceAllAbsent | Columnify.py:73 | a text in which the pattern does not occur is returned unchanged |
| Names.ReplaceAllConcat | Columnify.py:73 | for a pattern whose first character does not recur in it, an occurrence anywhere in the text is replaced on its own and the text on either side is processed independently |
| Names.ReplaceAllTrailing | Columnify.py:73 | for a pattern whose first character does not recur in it, a trailing occurrence is replaced on its own |
| Names.DefaultOutputNameSplits | Columnify.py:73 | every ".pdf" in a name, in the middle as well as at the end, becomes " 1column.pdf" |
| Names.ReplaceAllLength | Columnify.py:73 | a longer replacement lengthens every text the pattern occurs in and never shortens any |
| Names.DefaultOutputNameUnchanged | Columnify.py:73 | the default name equals the file name exactly when ".pdf" does not occur in it |
| Names.DefaultOutputNameSuffix | Columnify.py:73 | a file name ending in ".pdf" gives a default ending in " 1column.pdf" |
| Names.OneColumnNameReady | Columnify.py:78-83 | any entry ending in " 1column.pdf" is accepted once a file is chosen |
| Names.DefaultOutputNameReady | Columnify.py:73-83 | the default name for a file name ending in ".pdf" passes the readiness rule |
| Names.UpperCaseNameUnchanged | Columnify.py:73 | the replacement is case-sensitive: a name with no lower-case 'p' is its own default |
| Names.UpperCaseNameReady | Columnify.py:78-83 | the readiness rule is case-insensitive: once a file is chosen, a name with no leading or trailing blank, of five or more characters, ending in ".PDF" is accepted |
| Names.UpperCaseExtensionKept | Columnify.py:73-83 | for "Book.PDF" the default name is "Book.PDF" itself and the readiness rule accepts it |
| Names.PickFile | Columnify.py:65-76 | a cancelled dialog changes nothing; otherwise the path is remembered and the entry holds the default name of line 73, so a name without ".pdf" is offered as is and a ".pdf" name leaves the form ready to process |

## Left out

- The tkinter window, widgets, dialogs, message boxes, progress-bar and
  button updates, and the marshalling of UI updates onto the UI thread
  (Columnify.py:8-63, 139-155): presentation only. `RunLogic` returns the
  reports the loop hands to the UI instead.
- The background thread of `start_thread` (Columnify.py:89-92):
  concurrency plumbing around a sequential loop.
- The PDF library: opening the reader, creating the writer, cloning a page
  into the writer, rotation normalisation and serialisation
  (Columnify.py:96-97, 108, 123, 128, 137). Normalisation is the opaque
  `normalize` parameter, which sees each page's content identity; nothing is
  proved about what it does to a page (rotation cleared, width and height
  swapped for quarter turns).
- File and path handling: the output directory and path join, opening and
  writing the output file, and `os.path.basename` (Columnify.py:69,
  100-101, 136-137). Failures there end in the same error branch; only the
  normalisation failure is modelled as an abort.
- Progress.Percent: computed over exact reals with `Floor`; Python computes
  in binary floating point, where the value can be one lower (for example
  29 of 100 pages gives 28). Only bounds, monotonicity and the final 100
  hold in both.
- Geometry.Split: coordinates are exact reals; float rounding of the
  midpoint is not modelled, so the two half-widths are exactly equal here.
- Names.Lower: only ASCII letters are lowercased; Unicode case mapping is
  not modelled. No non-ASCII character lowercases to '.', 'p', 'd' or 'f',
  so the readiness decision is unaffected.
- Names.ReplaceAll: requires a non-empty pattern; Python's behaviour for an
  empty pattern is not modelled, as the only use replaces ".pdf".
- The "Smart Gutter Detection" label (Columnify.py:41): no logic stands
  behind it.
