# image_to_pdf — a Dafny model of the batch core

`image_to_pdf.py` turns every sub-directory of a source tree into one PDF.
For each directory the walk yields, the batch does four things:

- It globs `*.jpg`, `*.jpeg` and `*.png`.
- It sorts the candidates naturally.
- It keeps all of them when there are fewer than the requested count, and otherwise the first and the last half of that count.
- It assembles them into `<destination>/<directory name>.pdf`: one temporary one-page PDF per image, merged and written out, with the temporary files removed afterwards.

The batch returns True when at least one group's assembly returned True.

This project models that core as pure functions over immutable data:

- `Sequences`: index sequences and duplicate-freedom, shared by the other modules.
- `Discovery`: glob matching of a directory's entry names. `*` does not match a leading dot, and the match is literal and case-sensitive. It includes the `os.path.join` of a directory and a name, and the concatenation of the three globs.
- `NatSort`: the natural sort as an insertion sort over an abstract comparison `le`.
- `Selection`: the head/tail selection, with Python's slice semantics written out. Negative bounds count from the end, out-of-range bounds clamp, and `s[-0:]` is the whole list.
- `Assembly`: `create_pdf_from_images` as a state machine over oracles. The oracles say which calls succeed: image opening, RGB conversion, temporary-file creation, saving, appending, opening and writing the output, removal, and closing the merger. The model reports four things:
  - the outcome (a returned boolean or an exception);
  - what is left at the output path;
  - the document's pages;
  - which temporary files were created, which removals were attempted and which files remain.
- `Batch`: `process_directory`. The walk is a sequence of groups, each with a parent path, a name and an entry listing. Whether the source is a directory and whether creating the destination raises are parameters.

Some behaviours of the code are easy to miss; the model follows them:

- A count of 0 or 1 gives `half == 0`. The code then selects `s[:0] + s[-0:]`, which is the whole list, not an empty selection.
- The walk visits directories at every depth, not only the immediate sub-directories of the source.
- On POSIX systems the extension match is case-sensitive: `a.JPG` is not an image.
- A temporary file whose save raised is never recorded, so it is never removed. A failed removal also leaves a file behind.
- When writing the output raises after the file was opened, a partial file stays at the output path.
- Two directories with the same name under different parents share one output path. Both successes are counted, but only one file remains.
- The output oracles (`open`, `write` and the merger's `close`) depend only on the output path. So two same-name groups always get the same output outcomes, and the model cannot show a later same-name group leaving a partial file over an earlier counted success.

## Model

| member | source | states |
|---|---|---|
| Discovery.JoinShape | image_to_pdf.py:84 | The joined path starts with the directory and ends with the entry name |
| Discovery.JoinInjective | image_to_pdf.py:84 | Under one directory, different entry names give different paths |
| Discovery.Glob | image_to_pdf.py:87 | One glob call yields at most one path per directory entry; every path it yields joins the directory to an entry the pattern matches, and every matching entry's path is yielded |
| Discovery.Candidates | image_to_pdf.py:86-90 | The concatenated globs yield only paths of image entries, and the path of every image entry |
| Discovery.CandidatesArePermutation | image_to_pdf.py:86-90 | The three globs together yield every image entry exactly once: the same multiset as the pattern-independent filter (non-hidden name ending in `.jpg`, `.jpeg` or `.png`), because no name ends with two of the suffixes |
| Discovery.SuffixesExclusive | image_to_pdf.py:87-89 | No entry name matches two of the three patterns, so no file is globbed twice |
| Discovery.ImagePathsMembership | image_to_pdf.py:87-89 | A path is found exactly when it is the join of the directory with some image entry name |
| Discovery.CandidateMembership | image_to_pdf.py:86-90 | A path is a candidate exactly when some entry of the listing is an image name and the path joins it to the directory |
| Discovery.ImagePathsDistinct | image_to_pdf.py:87-89 | A listing without repeated names yields no repeated paths |
| Discovery.NoCandidatesIff | image_to_pdf.py:86-94 | A directory yields no candidates, and is skipped, exactly when none of its entries is an image name |
| Discovery.MatchingExamples | image_to_pdf.py:87-89 | `a.jpg`, `b.jpeg` and `c.png` match; `a.JPG`, the hidden `.jpg` and `d.gif` do not |
| NatSort.Sort | image_to_pdf.py:86 | The sorted list is a permutation of the candidates: same length and same multiset |
| NatSort.SortSorted | image_to_pdf.py:86 | For any total preorder the sorted list is ordered pairwise |
| NatSort.SortKeepsElements | image_to_pdf.py:86 | Sorting neither loses nor duplicates any path |
| Selection.SliceBound | image_to_pdf.py:102 | A Python slice bound lands inside the list: a non-negative one in range is kept, a negative one counts from the end, one past the end clamps to the length and one before the start clamps to 0 |
| Selection.Take | image_to_pdf.py:102 | `s[:k]` is the first `k` elements, or all but the last `-k`; out-of-range bounds give the whole list or nothing |
| Selection.Drop | image_to_pdf.py:102 | `s[k:]` drops the first `k` elements, or keeps exactly the last `-k`; out-of-range bounds give nothing or the whole list |
| Selection.Select | image_to_pdf.py:96-102 | Fewer candidates than the count, or a count of 0 or 1, keep the whole list; otherwise the first and last `n // 2` are kept, at most `n` in total; a non-negative count never adds an element and gives an empty selection only for an empty list |
| Selection.SelectedIndicesIncrease | image_to_pdf.py:100-102 | The picked positions strictly increase and stay inside the list, so the head and the tail never overlap |
| Selection.SelectionIsSubsequence | image_to_pdf.py:96-102 | The selection is exactly the elements at those increasing positions, in order |
| Selection.SelectionDistinct | image_to_pdf.py:100-102 | A duplicate-free candidate list gives a duplicate-free selection |
| Selection.NegativeCountRepeats | image_to_pdf.py:100-102 | A negative count selects `2 * max(0, len + n // 2)` elements, repeating the middle of the list |
| Selection.DoubledCountSelection | image_to_pdf.py:100-102 | A count of `2 * k` with `k >= 1` and no more than the list's length selects exactly the first `k` and the last `k` elements |
| Selection.DefaultCountExamples | image_to_pdf.py:64-102 | With the default count 6, ten images give the first three and the last three, and two images give both |
| Assembly.PdfMode | image_to_pdf.py:36-37 | RGBA and LA images are saved as RGB; other modes are saved unchanged; no saved page is RGBA or LA |
| Assembly.RenderLoop | image_to_pdf.py:32-41 | The loop finishes exactly when every image renders. Otherwise it stops at the first image that does not, at the stage that raised. The pages are exactly those of the images before the stop, in order. Every earlier image has a created and recorded temporary file, and the failing image adds an unrecorded file when its save raised and a recorded one when its append raised |
| Assembly.CreatePdfFromImages | image_to_pdf.py:15-62 | An empty list returns False and touches nothing. A complete output exists exactly when every image renders and the output opens and writes; a partial one exactly when the write raises. True is returned exactly when the output is complete and the close succeeds. The call raises exactly when the close raises. The document is one page per image, in order. The created files and the removal attempts are exactly the loop's created and recorded files, so every recorded file gets one removal attempt on every exit path. A file that stays is unrecorded or failed to be removed, and an unrecorded one is the failing image's file, whose save raised |
| Assembly.TempFiles | image_to_pdf.py:38-41 | After the loop, each created file belongs to an image of the list. The recorded files are created and distinct, and the only unrecorded created file is that of an image whose save raised |
| Assembly.CleanupAfterFailure | image_to_pdf.py:32-62 | When image `k` is the first that does not render, every earlier image's file gets a removal attempt. The failing image's file exists exactly when its save or append raised, and gets an attempt exactly when its append raised; a file whose save raised stays on disk. Nothing is written to the output |
| Assembly.RemovalDoesNotAffectResult | image_to_pdf.py:55-61 | Whether removals succeed changes neither the outcome, nor the output, nor the document, nor the removal attempts |
| Assembly.NoTempFilesBranchUnreachable | image_to_pdf.py:44-51 | When the loop over a non-empty list finishes, one file per image is recorded, so the branch for an empty temporary list is never taken |
| Batch.SortedImagesAreTheImages | image_to_pdf.py:86-90 | The sorted candidates are the directory's image entries, none lost or repeated, ordered for any total preorder, and duplicate-free for a duplicate-free listing |
| Batch.ProcessGroup | image_to_pdf.py:84-107 | A group is skipped exactly when it has no image entry. Otherwise it is assembled into `<destination>/<name>.pdf`, and its selection is the head/tail selection of its naturally sorted candidates |
| Batch.ProcessGroupSelection | image_to_pdf.py:86-102 | With a non-negative count an assembled group's selection is non-empty and drawn from the group's images. It is all of them when there are fewer than the count or the count is 0 or 1. It has no repeats for a listing without repeated names, and it is in sorted order for any total preorder |
| Selection.SelectKeepsOrder | image_to_pdf.py:96-102 | A selection with a non-negative count from a sorted list is sorted |
| Batch.ProcessGroupAssembles | image_to_pdf.py:104-107 | An assembled group's report is the assembly of its selection into its output path |
| Batch.Results | image_to_pdf.py:82-107 | The walk yields one result per group, in walk order, and each is that group's own processing |
| Batch.ResultsSnoc | image_to_pdf.py:82-83 | Processing one more group appends its result and leaves the earlier results unchanged |
| Batch.AssembledExactlyGroupsWithImages | image_to_pdf.py:92-107 | Assembly is called once per group with image entries and never for another group |
| Batch.SucceededPathsAppend | image_to_pdf.py:106-112 | Groups are independent: the successes of a walk are the successes of its parts, concatenated |
| Batch.SuccessesBounded | image_to_pdf.py:106-108 | Every success is an assembled group, so successes never outnumber assemblies |
| Batch.SkippedGroupChangesNothing | image_to_pdf.py:92-94 | A skipped group changes neither the assemblies nor the successes |
| Batch.PathsSnoc | image_to_pdf.py:106-110 | One more group adds its output path to the assemblies when it was assembled, and to the successes when its assembly returned True |
| Batch.SameNameGroupsShareOutput | image_to_pdf.py:82-108 | Every success of two same-name directories under different parents names the same output path, and when both assemblies return True both are counted |
| Batch.Tally | image_to_pdf.py:106-115 | The counting loop yields the assembled and the successful output paths, in walk order, with the count equal to the number of successes |
| Batch.ProcessDirectory | image_to_pdf.py:64-115 | A source that is not a directory returns False before any group. A failing destination creation raises. Otherwise every group is processed in order, with a failing or raising assembly not stopping the others. Assemblies equal the groups with images, and True is returned exactly when some assembly returned True |

## Left out

- The Tk user interface (`image_to_pdf.py:117-195`): dialogs, message boxes, the wait cursor and the disabled button while the batch runs. Before calling the batch it doubles the spin-box value (line 136), so every count it passes is even, and 0 or negative when such a value is typed. It also checks that the source is a directory and that the destination is writable (lines 142-150). The model takes any integer count; `Selection.DoubledCountSelection` states what a doubled count selects.
- Image decoding, mode conversion and PDF encoding in PIL, and the PDF merger's internals. Each call becomes an oracle that either succeeds or raises. A page is identified by its source path and its saved mode.
- The byte contents of a partially written output. The model only records that a partial file is left.
- The natural-sort key of the external natsort library. The comparison is an abstract relation `le`.
- NatSort.Sort: it is stable by construction, but stability is not stated. Sortedness is proved only when `le` is a total preorder, which every key comparison is.
- The file system. The walk is an abstract sequence of groups in the order `os.walk` yields them, and a directory's listing is a sequence of entry names. Errors that `os.walk` swallows, and listing order, are not modelled. A sub-directory whose name matches a pattern is a candidate like a file. Whether opening it as an image raises is left to the image oracle, and it matters only when it is among the selected images.
- POSIX path and glob semantics are assumed. On Windows, glob normalises case on both pattern and name, so `a.JPG` matches `*.jpg`, and `os.path.join` uses `\` as the separator; neither is modelled.
- Glob magic characters (`*`, `?`, `[`) inside a directory's own path. The directory part of the pattern is taken literally.
- `os.path.join` with an absolute second argument. Names from a directory listing never start with `/`.
- Logging. It has no effect on results.
- The oracles are functions of the path. A given image path gets the same outcome each time, and the removal oracle is keyed by the image a temporary file was made for.
- ProcessDirectory computes every group's result and then counts them, where the source counts inside the walk loop. The two are equivalent because no group's processing depends on the count.
- Exceptions raised outside the assembly call (by `os.walk`, `glob` or `natsorted`) are not modelled. In the source they would propagate out of the batch.
