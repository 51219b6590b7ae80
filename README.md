# fixrefs: a verified model of the LaTeX cross-reference rewriter

`sphinx/fixrefs.py` post-processes the LaTeX that Sphinx writes. It turns
Sphinx's `\hypertarget{ID}{...}` and `\hyperlink{ID}{...}` markup into native
`\label{ID}` and `\ref{ID}` markup. It holds the whole document in one buffer
and makes three passes over it:

1. Pass 1 handles figure targets. A target whose second argument is
   followed immediately by `\begin{figure}` is rewritten. `\label{ID}` is
   inserted just inside the closing brace of the first `\caption` at or
   after the target. Then the target's span is cut. When that caption
   follows the target's arguments, the whole target is deleted.
2. Pass 2 replaces every link by `\ref{ID}` and drops the link text.
3. Pass 3 handles the remaining targets. A target whose ID contains
   `--doc-src` is deleted. For any other target, the script looks at the
   first backslash after it. If a `\chapter{`, `\section{`,
   `\subsection{` or `\subsubsection{` starts there, `\label{ID}` goes right
   after that command's argument, and the text from the target up to the
   command is deleted.

Every construct is read the same way. The ID lies between the first `{` and
the first `}` after the marker. The second argument ends at the first `}`
that balances the braces counted from just after the ID. Every scan that
runs off the end of the buffer raises an IndexError in the script. The model
calls that outcome `Fault`.

The model is split into these modules:

- `Text` models Python's `str.find` as `FindFrom`, returning an `Option`
  where Python returns -1. It also has Python slicing and the two splices
  the script performs.
- `Braces` has the balanced-brace scan. `Close` is its specification, and
  `MatchBrace` is the loop as the script runs it.
- `Passes` has one step per pass as a function (`FigureStep`, `LinkStep`,
  `SectionStep`). It also has the resumable pass itself (`PassFrom` and
  `PassAt`) and the whole script (`FixAll`).
- `FixRefs` has the script in its own imperative form. Each pass is a
  method with a `while` loop over the buffer `s` and the cursor `i`. Each
  method is proved equal to its specification function.
- `Properties` has what the passes promise. This covers exactly when a
  construct faults, the shape of each rewrite, when a pass leaves an
  occurrence alone, and the text the passes never touch. It also proves
  that pass 2 leaves no link behind and that it is idempotent.
- `AsWritten` models pass 2 exactly as written, with `b == -1` left in. It
  proves that pass 2 then never ends on `{}\hyperlink` (see "## Findings").

Each pass of the model terminates: every rewrite shortens the buffer
(`Passes.Apply`), so `|s| - i` decreases on every iteration. That is the
`decreases` clause of the three loops. `PassFrom` and `PassAt` use
`|s| + 1 - from` and `|s| + 1 - i`, the same measure, because the search
resumes at `from = i + 1`. The script's own pass 2 need not terminate (see
"## Findings").

Two behaviours of the script that are easy to miss:

- In pass 1 the label lands inside the caption's braces (line 58), not
  after the caption.
- The caption search at line 40 starts at the target, not after its
  arguments. When the target's own second argument holds the caption,
  line 58 inserts the label inside the target. Line 59 then cuts up to the
  old end of the target, which the insertion has shifted. For example,
  `\hypertarget{x}{\caption{y}}\begin{figure}` becomes
  `abel{x}}}\begin{figure}`. `FigureStep` computes exactly that. The
  closed-form shape lemmas (`CaptionShape`, `FigureRewriteShape`) cover only
  a caption after the target's arguments.
- After an internal target is deleted, pass 3 resumes its search one
  character after where the target began (lines 93 and 118). A second
  target that now starts exactly there is never examined.

## Model

| member | source | states |
|---|---|---|
| Text.FindFromFinds | sphinx/fixrefs.py:13 | `find` returns the first occurrence of the word at or after the start, and nothing exactly when there is no occurrence there |
| Text.HasAtSlice | sphinx/fixrefs.py:37 | comparing characters one by one is Python's comparison of the slice `s[p:p+len(w)]` with `w`, false when the slice runs out |
| Braces.CloseFinds | sphinx/fixrefs.py:23-35 | the brace scan from `p` stops at the least `q >= p` where `s[q]` is `}` and the braces of `s[p..q]` balance, and it faults exactly when no such `q` exists |
| Braces.MatchBrace | sphinx/fixrefs.py:45-56 | the counting loop (`cnt`, `j`) returns what `Close` specifies, so it is the least balancing `}` |
| Braces.OpenBeforeClose | sphinx/fixrefs.py:26-35 | a scan stops only after it has passed a `{`, because a `}` at zero depth makes the counter negative rather than zero |
| Passes.FindChar | sphinx/fixrefs.py:18-19 | a one-character search returns the first occurrence of that character, and finds one whenever one exists |
| Passes.ParseConstruct | sphinx/fixrefs.py:18-35 | a construct that does not fault has its ID's `}` and its second argument's closing `}` in the buffer, in that order, after the marker |
| Passes.ParseConstructFinds | sphinx/fixrefs.py:18-35 | the ID ends at the first `}` after the marker, and the second argument ends at the first `}` that balances the braces scanned from just after it |
| Passes.SpanOutweighsId | sphinx/fixrefs.py:18-35 | the marker, the ID and at least three braces lie between the marker's start and the closing brace, so the construct is longer than its ID plus the marker |
| Passes.SpliceShrinks | sphinx/fixrefs.py:58-59 | inserting a word and then cutting a longer span in front of it shortens the buffer and keeps the text in front of the cut |
| Passes.CaptionSpliceShrinks | sphinx/fixrefs.py:58-59 | the pass-1 splice shortens the buffer and keeps `s[:i]` |
| Passes.FigureShrinks | sphinx/fixrefs.py:37-59 | every pass-1 rewrite shortens the buffer and keeps all text in front of the target |
| Passes.LinkShrinks | sphinx/fixrefs.py:88 | pass 2 rewrites at every link it can read, into a shorter buffer that keeps the text in front of the link |
| Passes.CommandSpliceShrinks | sphinx/fixrefs.py:144-145 | the pass-3 splice shortens the buffer and keeps `s[:i]` |
| Passes.LabelSectionShrinks | sphinx/fixrefs.py:121-145 | a label after a sectioning command shortens the buffer and keeps the text in front of the target |
| Passes.SectionShrinks | sphinx/fixrefs.py:117-145 | every pass-3 rewrite, whether a deletion or a label, shortens the buffer and keeps all text in front of the target |
| Passes.Apply | sphinx/fixrefs.py:12-59 | each step that rewrites produces a shorter buffer with the same text in front of the marker, which is why each loop terminates |
| Passes.PassFrom | sphinx/fixrefs.py:63-67 | a pass resumed at `from` never changes the text in front of the next marker at or after `from` |
| Passes.PassAt | sphinx/fixrefs.py:64-88 | a pass continued from a marker at `i` never changes the text in front of `i` |
| FixRefs.ReadConstruct | sphinx/fixrefs.py:18-35 | reads the ID and the closing brace of a construct as `ParseConstruct` specifies |
| FixRefs.SkipToBackslash | sphinx/fixrefs.py:121-125 | the skipping loop finds the first backslash after the target's arguments, or faults where the script indexes past the end |
| FixRefs.FigureAt | sphinx/fixrefs.py:18-59 | one iteration of pass 1 computes `FigureStep` |
| FixRefs.CaptionAt | sphinx/fixrefs.py:40-59 | the caption search, its brace scan and the two splices compute `LabelCaption` |
| FixRefs.FigurePass | sphinx/fixrefs.py:10-59 | the first loop of the script computes `Run(Figures, input)` |
| FixRefs.LinkAt | sphinx/fixrefs.py:69-88 | one iteration of pass 2 computes `LinkStep` |
| FixRefs.LinkPass | sphinx/fixrefs.py:61-88 | the second loop computes `Run(Links, input)` |
| FixRefs.SectionAt | sphinx/fixrefs.py:98-145 | one iteration of pass 3 computes `SectionStep` |
| FixRefs.CommandAt | sphinx/fixrefs.py:127-145 | the sectioning-command test, its brace scan and the two splices compute `LabelCommand` |
| FixRefs.SectionPass | sphinx/fixrefs.py:90-145 | the third loop computes `Run(Sections, input)` |
| FixRefs.Process | sphinx/fixrefs.py:10-145 | the three loops in sequence compute `FixAll`, and the first fault stops the script |
| Properties.ParseFaultsExactly | sphinx/fixrefs.py:18-35 | reading a construct faults if and only if there is no `}` after the marker, or the second argument's braces never balance |
| Properties.IdBetweenFirstBraces | sphinx/fixrefs.py:18-21 | the ID is `s[a+1:b]` for the first `{` at `a` and the first `}` at `b` after the marker, and it is empty when `b < a` |
| Properties.PassKeepsPrefix | sphinx/fixrefs.py:12-16 | a pass resumed at `from` returns a buffer whose first `from` characters are those of the buffer it was given |
| Properties.TextBeforeFirstMarkerKept | sphinx/fixrefs.py:10-16 | a whole pass leaves the text before the first occurrence of its marker unchanged |
| Properties.ResolvedDocumentUnchanged | sphinx/fixrefs.py:10-145 | a document with no `\hypertarget` and no `\hyperlink` comes out of the script unchanged |
| Properties.RefLeavesNoLinkBehind | sphinx/fixrefs.py:88 | splicing `\ref{ID}` in at `i` creates no `\hyperlink` starting at or before `i` |
| Properties.LinkRewriteLeavesNoLinkBehind | sphinx/fixrefs.py:69-88 | after a link is rewritten, no link starts at or before its position when none started before it |
| Properties.LinkPassFromLeavesNoLink | sphinx/fixrefs.py:63-88 | pass 2 resumed at `from`, with no link before `from`, returns a buffer with no link at all |
| Properties.LinkPassAtLeavesNoLink | sphinx/fixrefs.py:64-88 | pass 2 continued from the first link returns a buffer with no link at all |
| Properties.LinkPassLeavesNoLink | sphinx/fixrefs.py:61-88 | whenever pass 2 succeeds, its output contains no `\hyperlink` |
| Properties.LinkPassIdempotent | sphinx/fixrefs.py:61-88 | pass 2 applied to its own output returns it unchanged |
| Properties.FigureSkipsExactly | sphinx/fixrefs.py:37-43 | pass 1 leaves a target alone if and only if the text after its second argument is not `\begin{figure}` or no `\caption` follows the target |
| Properties.SpliceBehind | sphinx/fixrefs.py:58-59 | inserting at `e` and then cutting `s[i:j]` with `i <= j <= e` gives `s[:i] + s[j:e] + w + s[e:]` |
| Properties.CaptionShape | sphinx/fixrefs.py:40-59 | when the caption lies after the target's arguments, the result is the text before the target, the text up to the caption's closing brace, then `\label{ID}`, then the rest |
| Properties.FigureRewriteShape | sphinx/fixrefs.py:37-59 | when the caption follows the target's arguments, the pass-1 rewrite deletes the whole target and puts `\label{ID}` just inside the caption's closing brace |
| Properties.InternalTargetDropped | sphinx/fixrefs.py:117-119 | a target whose ID contains `--doc-src` is deleted with its arguments, and no label is inserted |
| Properties.SectionSkipsExactly | sphinx/fixrefs.py:121-128 | pass 3 leaves a target alone if and only if no sectioning command starts at the first backslash after it |
| Properties.CommandShape | sphinx/fixrefs.py:121-145 | the result is the text before the target, then the command through its closing brace, then `\label{ID}`, then the rest |
| Properties.SectionRewriteShape | sphinx/fixrefs.py:117-145 | the pass-3 rewrite deletes everything from the target up to the command and puts `\label{ID}` right after the command's argument |
| AsWritten.AgreesWhenIdClosed | sphinx/fixrefs.py:69-88 | where a `}` follows the link, the code as written and the model rewrite alike, and where none follows the model faults |
| AsWritten.OnlyTrailingLink | sphinx/fixrefs.py:64 | in a buffer of the endless shape, the search finds only the link at its end |
| AsWritten.TrailingStep | sphinx/fixrefs.py:69-88 | with no brace after that link, `b` is -1: the ID becomes nearly the whole buffer and the brace scan restarts at offset 0 |
| AsWritten.GrownEndless | sphinx/fixrefs.py:88 | the buffer that step produces is longer and has the same shape again |
| AsWritten.EndlessStep | sphinx/fixrefs.py:69-88 | the step at the trailing link succeeds and yields a longer buffer of the same shape |
| AsWritten.EndlessRun | sphinx/fixrefs.py:63-88 | from any buffer of that shape, pass 2 as written is still looping after any number of steps |
| AsWritten.LinkPassNeverEnds | sphinx/fixrefs.py:63-88 | pass 2 as written never finishes on `{}\hyperlink` |
| AsWritten.LinkPassFaultsOnUnclosedId | sphinx/fixrefs.py:69-74 | the corrected pass 2 stops with a fault on the same document |

## Left out

- Lines 3-8 and 147-148 (reading `sys.argv[1]`, reading the file and writing the buffer back) are I/O. `FixRefs.Process` takes the file's contents and returns the new contents.
- Where the script dies with an IndexError, the model returns `Fault`. It does not model the exception, its message, or the fact that the file is then left unwritten.
- Python strings are sequences of code points. The model's `string` is a sequence of Dafny characters, and the only character comparisons the script makes are exact ones.
- AsWritten.LinkPassAsWritten: it is bounded by a `fuel` count of loop turns. "Never ends" is stated as "still looping after every number of turns".
- Passes.ParseConstruct, FixRefs.ReadConstruct: they fault whenever no `}` follows the marker, in all three passes. The script goes on with `b == -1` instead, and only pass 2's consequence (the endless loop under "## Findings") is modelled as written, in `AsWritten`. On `{}\hypertarget` the script leaves the buffer unchanged: pass 1 continues at line 38 and pass 3 at line 128. `FixAll` returns `Fault` on it. Pass 3 as written can also fail to terminate: on `{}--doc-src\hypertarget` the ID `s[0:-1]` contains `--doc-src`, and line 118 copies the target further right on every turn. On `{}\section{x}\hypertarget`, lines 121-145 do the same. Neither run is modelled as written, and the model faults on both.
- `bench/bench.py` is not part of this model. It is a table of timing numbers handed to a plotting library.
- The jsMath font tables under `html/static` and `sphinx/_static` are not part of this model. They are static data registered with a library that is not shown.
- `sphinx/ext/bibtex.py` is not part of this model. It is an adapter over the pybtex library, which is not shown.

## Findings

| source | as written | input that shows it | evidently intended | confidence | as-written member | corrected member |
|---|---|---|---|---|---|---|
| sphinx/fixrefs.py:70-74 | when no `}` follows a `\hyperlink`, `b` is -1. The ID becomes `s[a+1:-1]` and the brace scan restarts at offset 0. The link is then replaced by a reference that copies almost the whole buffer. The link itself survives at the end of the new buffer, after the point where the search resumes, so the buffer triples on every turn (a buffer of length `n` becomes one of length `3n - 7`) until memory runs out | `{}\hyperlink` | malformed input should fail only by a scan running off the end of the buffer, so a link whose ID is never closed should stop the script with an error | not executed | AsWritten.LinkPassNeverEnds | AsWritten.LinkPassFaultsOnUnclosedId |
