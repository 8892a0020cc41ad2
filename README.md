# docToolsBox batch tools: a Dafny model

This project models the two batch scripts of `docToolsBox` and proves
properties of the model:

- `remove_last_image.py` walks the current directory for `.docx` files. For
  each file the script has not processed before, it scans the document body
  backwards and removes the last drawing, but only when nothing with visible
  text comes after it in the order the scan lists paragraphs (`Paragraphs`).
  This is document order only when no table is nested in another. It saves
  the document only when it removed something, and it records every file it
  completes in a progress ledger.
- `doc2docx.py` walks the directory for `.doc` files and fills a queue with
  them, followed by one sentinel per worker. Each worker thread keeps one Word
  instance. For each file it opens the document, saves a `.docx` copy next to
  it, closes it, deletes the original and marks the file processed.

Modules, one per concern of the scripts:

| module | file | what it holds |
|---|---|---|
| `Text` | `text.dfy` | `Option`, `endswith`/`startswith`, Python's `str.strip()` and an ASCII `str.lower()` |
| `Progress` | `progress.dfy` | the progress ledger (`load_processed_files`, `mark_as_processed`) as a class over the set and the ledger file's text |
| `WordML` | `wordml.dfy` | the document body as an element tree addressed by child-index paths; `findall('.//tag')`; `get_all_paragraphs_in_order`; removal of one child |
| `Scanner` | `scanner.dfy` | the backward scan of `process_file` in `remove_last_image.py`, proved equal to a specification over the flattened run children; each of the code's three nested loops is a method of its own (`ScanRun`, `ScanParagraph`, `ScanParagraphs`), so a `break` out of an inner loop is a return with its flags |
| `Discovery` | `discovery.dfy` | the `os.walk` filter both `main`s run |
| `ImageRemoval` | `imageremoval.dfy` | `process_file` and `main` of `remove_last_image.py` |
| `Nesting` | `nesting.dfy` | a table nested in a cell, walked by `get_all_paragraphs_in_order` |
| `Conversion` | `conversion.dfy` | `process_file`, the queue, `worker` and the first half of `main` of `doc2docx.py` |

Where the code and its own comments disagree, the model follows the code:

- `w:pict` is never removed, although the test at `remove_last_image.py:104`
  names it (`or child.tag.endswith('pict')`). That branch cannot be reached
  for a picture: the scan tests `endswith('t')` first, and `pict` ends in
  `t`, so a picture is treated as a text element. A picture without text is
  passed over like blank text (`Scanner.PictIsNeverRemoved`). Only tags
  ending in `drawing` and not in `t` are removed.
- The docstring at `remove_last_image.py:55` says all paragraphs are yielded
  "in order". In a table, `findall('.//w:tr')` and `findall('.//w:tc')`
  search all descendants, and a cell's own paragraphs are found by walking
  the cell again. A paragraph inside a table nested in a cell is therefore
  listed three times at the same path: once through the outer cell's walk
  (`remove_last_image.py:64`), once because the outer row's `.//w:tc` also
  finds the inner cell (`:63`), and once because the outer table's
  `.//w:tr` also finds the inner row (`:62`) (`Nesting.NestedTableRepeats`).
  Document order with row-major cells holds only for tables without nested
  tables (`WordML.TableRowMajor`).
- The comment at `remove_last_image.py:107-109` says the image found is the
  last one and is at the end. That holds only without nested tables. Take a
  cell holding an inner table, whose paragraph holds a drawing, and then a
  paragraph with the text "Hello". The paragraphs are listed as drawing,
  text, drawing, drawing. The backward walk meets the drawing first and
  removes it, although the text comes after it in the document
  (`Nesting.NestedDrawingBeforeText`).

Two behaviours of the code that are easy to miss:

- A ledger read that raises part-way keeps the lines already added to the
  set. The set does not fall back to empty.
- In `doc2docx.py`, `doc = None` is set only after `Close()` returns. When
  `Open` raises, nothing is closed. When `SaveAs` or `Close` raises, the
  document is closed again without saving.

Everything outside the program is a parameter of the model:

- **Word calls.** Whether each Word call and `os.remove` returns for a file
  is a `StepResults` value.
- **Saving.** Whether `doc.save` returns is a boolean.
- **Ledger appends.** Whether an append to the ledger file succeeds is a
  boolean.
- **Ledger reads.** After how many lines a ledger read raises is an
  `Option<nat>`.
- **Path building.** `os.path.abspath(os.path.join(root, name))` is an
  uninterpreted function `fullPath`.
- **Queue timeouts.** Whether each `q.get(timeout=3)` times out is a
  sequence of booleans.

## Model

| member | source | states |
|---|---|---|
| Text.StripSpec | docToolsBox/remove_last_image.py:101 | `strip()` is the slice left after dropping the leading and trailing whitespace: both ends of the result are non-space, everything cut off is whitespace, and the result is empty exactly when the text is all whitespace |
| Text.StripLine | docToolsBox/remove_last_image.py:38-40 | a path with no surrounding whitespace, read back from a line `path + "\n"`, strips to itself |
| Text.LowerSpec | docToolsBox/remove_last_image.py:151 | `lower()` keeps the length and maps each character on its own |
| Progress.LineLengthSpec | docToolsBox/remove_last_image.py:39 | the first line of a file runs up to and including the first `\n`, or to the end: no `\n` comes before its last character, and it stops short of the end only at a `\n` |
| Progress.LinesSplit | docToolsBox/remove_last_image.py:39 | iterating a file yields lines whose concatenation is the file, each ending in `\n` except possibly the last |
| Progress.LinesAppend | docToolsBox/remove_last_image.py:48-49 | appending `path + "\n"` to a file that ends in a newline adds exactly one line |
| Progress.LogOf | docToolsBox/remove_last_image.py:45-51 | a ledger written only by appends of `path + "\n"` is empty or ends in a newline |
| Progress.ReloadAfterMark | docToolsBox/remove_last_image.py:35-51 | loading the ledger after a mark of a clean path (no `\n` or `\r` inside, no whitespace at either end) yields the set loaded before plus that path |
| Progress.ReplayLedger | docToolsBox/remove_last_image.py:35-51 | after marking n clean paths (no `\n` or `\r` inside, no whitespace at either end) into an empty ledger, the file has n lines and loading gives exactly those paths |
| Progress.Ledger.constructor | docToolsBox/remove_last_image.py:33 | the set of processed files starts empty |
| Progress.Ledger.Load | docToolsBox/remove_last_image.py:35-43 | the set gains the stripped lines read before any read failure; a missing file adds nothing; the file is unchanged (`doc2docx.py:53-62` is the same function) |
| Progress.Ledger.Mark | docToolsBox/remove_last_image.py:45-51 | the path joins the set whatever happens; the file grows by exactly `path + "\n"` when the append succeeds and is unchanged otherwise (`doc2docx.py:64-72` is the same function, under a lock) |
| WordML.FindAll | docToolsBox/remove_last_image.py:62 | every node `findall('.//tag')` returns is a proper descendant with that tag, at the path given |
| WordML.FindAllComplete | docToolsBox/remove_last_image.py:62-63 | every proper descendant with the tag is among the nodes returned |
| WordML.Paragraphs | docToolsBox/remove_last_image.py:53-64 | every paragraph yielded has a tag ending in `p` and is a descendant of the parent, at its path |
| WordML.ParagraphsFrom | docToolsBox/remove_last_image.py:58-64 | the same for the children from index i on |
| WordML.TableParagraphs | docToolsBox/remove_last_image.py:61-64 | the paragraphs of a table are descendants of the table with tags ending in `p` |
| WordML.RowsParagraphs | docToolsBox/remove_last_image.py:62-64 | the same for the loop over the rows found |
| WordML.CellsParagraphs | docToolsBox/remove_last_image.py:63-64 | the same for the loop over the cells of one row |
| WordML.ParagraphsWithoutTables | docToolsBox/remove_last_image.py:58-60 | without tables, the paragraphs are the children whose tag ends in `p`, in order |
| WordML.TableRowMajor | docToolsBox/remove_last_image.py:61-64 | for a table whose rows hold cells and whose cells hold no tables, the paragraphs come row by row, cell by cell, in document order |
| Nesting.NestedTableRepeats | docToolsBox/remove_last_image.py:53-64 | for body > tbl > tr > tc > tbl > tr > tc > p, each the only child of the one before, the paragraph list of the body (at any path prefix) is that one paragraph three times, at the same path |
| Nesting.NestedDrawingBeforeText | docToolsBox/remove_last_image.py:53-64 | for body > tbl > tr > tc holding an inner table (tr > tc > p > r > drawing) and then p > r > t "Hello", the text is located after the drawing in the document and is a text signal, yet the scan removes the drawing |
| WordML.RemoveAtParent | docToolsBox/remove_last_image.py:112 | `run.remove(child)` leaves the run with exactly that child taken out |
| WordML.RemoveAtElsewhere | docToolsBox/remove_last_image.py:112 | every element not on the path to the run and not below it is unchanged |
| WordML.RemoveAtAncestors | docToolsBox/remove_last_image.py:112 | the run's ancestors keep their tag, text and number of children |
| Scanner.ChildNodeLocated | docToolsBox/remove_last_image.py:97 | `list(run)` has one node per child of the run, and each is found in the body one step below the run |
| Scanner.KeepRunsSpec | docToolsBox/remove_last_image.py:84 | the runs are exactly the children whose tag ends in `r` |
| Scanner.RunsAreRChildren | docToolsBox/remove_last_image.py:84 | both directions: every run is a child ending in `r`, and every child ending in `r` is a run at its own path |
| Scanner.LastSignalSpec | docToolsBox/remove_last_image.py:80-129 | no signal is found exactly when no visited child is text with visible characters or a drawing; otherwise the one found is a signal with none after it |
| Scanner.LastSignalAppend | docToolsBox/remove_last_image.py:80-99 | a signal in a later stretch hides every earlier one; a later stretch without one defers to the earlier one |
| Scanner.LastSignalUnique | docToolsBox/remove_last_image.py:80-129 | a signal with no signal after it is the one the backward walk stops at |
| Scanner.ItemsInRuns | docToolsBox/remove_last_image.py:84-99 | every node the scan visits is a child of a run, at its path in the body |
| Scanner.Scan | docToolsBox/remove_last_image.py:80-129 | a removal targets a child of a run in the body |
| Scanner.BlankTextIsNoSignal | docToolsBox/remove_last_image.py:100-103 | a text element that is missing, empty or all whitespace does not stop the scan |
| Scanner.PictIsNeverRemoved | docToolsBox/remove_last_image.py:100-104 | a `pict` tag takes the text branch and is never removed; what is removed is exactly a tag ending in `drawing` and not in `t` |
| Scanner.QuietParagraphSkipped | docToolsBox/remove_last_image.py:131 | a paragraph with neither signal leaves the result to the paragraphs before it |
| Scanner.ScanOutcome | docToolsBox/remove_last_image.py:100-129 | the scan finds nothing exactly when the document has no signal; otherwise the last signal decides: text gives "ends in text", a drawing gives its removal |
| Scanner.RemovedIsTrailingDrawing | docToolsBox/remove_last_image.py:104-114 | what is removed is a drawing in a run with no visible text and no drawing after it in the order the scan lists paragraphs, runs and run children (`Items`); this is document order only when no table is nested in another |
| Scanner.EditRemovesOneRunChild | docToolsBox/remove_last_image.py:112 | without a removal the body is unchanged; with one, exactly one child of the run goes, the body changes, and everything off the path to the run stays as it was |
| Scanner.DecideQuiet | docToolsBox/remove_last_image.py:131 | a stretch of the walk decides nothing exactly when it holds neither visible text nor a drawing, so the scan goes on before it |
| Scanner.DecideAppend | docToolsBox/remove_last_image.py:116-129 | when a stretch decides, it decides the whole walk, whatever comes before it, provided nothing after it is a signal: the breaks stop the scan at the first decision |
| Scanner.DecideAt | docToolsBox/remove_last_image.py:100-114 | a signal with only quiet nodes after it decides: text gives "ends in text", a drawing gives its own removal |
| Scanner.ScanRun | docToolsBox/remove_last_image.py:97-114 | the loop over one run's children, last first: the outcome is what the children decide; the text flag is set exactly for "ends in text", the removal flag exactly for a removal; the body is then edited at that child, and is otherwise unchanged |
| Scanner.ScanParagraph | docToolsBox/remove_last_image.py:84-122 | the loop over one paragraph's runs, last first, with its breaks: the same, for the children of all the paragraph's runs in order |
| Scanner.ScanParagraphs | docToolsBox/remove_last_image.py:80-131 | the loop over the paragraphs, last first, with its breaks: the same, for the run children of all the paragraphs in order |
| Scanner.RemoveLastImage | docToolsBox/remove_last_image.py:76-129 | the three nested backward loops, with their flags and breaks, produce exactly `Scan`'s outcome and `Edited`'s body |
| Discovery.CandidatesAppend | docToolsBox/remove_last_image.py:149-154 | the candidates keep walk order: those of a later stretch of the walk follow those of an earlier one |
| Discovery.CandidateMembership | docToolsBox/remove_last_image.py:149-154 | both directions: a path is a candidate exactly when it is not processed and some walked name that ends in the extension, ignoring case, and does not start with `~$` has that full path |
| Discovery.RerunFindsNothing | docToolsBox/remove_last_image.py:149-154 | once every candidate is marked, discovery over the same walk finds nothing |
| Discovery.Discover | docToolsBox/remove_last_image.py:149-154 | the nested loop over directories and names appends exactly the candidates, in walk order (`doc2docx.py:162-167` is the same loop) |
| ImageRemoval.SavedIffRemoved | docToolsBox/remove_last_image.py:133-136 | the file is saved exactly when it exists, the scan removed a drawing and the save returns; a completed attempt saved exactly when the edit changed the body |
| ImageRemoval.ProcessFile | docToolsBox/remove_last_image.py:66-141 | loading fails for a missing document; the body is replaced by the edited one only when a drawing was removed and saved; every normal completion marks the file; a raised load or save leaves the ledger alone |
| ImageRemoval.ExpectedAttemptsSpec | docToolsBox/remove_last_image.py:164-165 | the attempt expected for the i-th file is `process_file`'s on that file |
| ImageRemoval.CompletedListSpec | docToolsBox/remove_last_image.py:138 | the completed paths in processing order are exactly the completed set |
| ImageRemoval.LogAfterAllAppended | docToolsBox/remove_last_image.py:45-51 | when every append succeeds, the ledger text after the run is the old text followed by one `path + "\n"` per completed attempt, in order |
| ImageRemoval.CleanRunLedger | docToolsBox/remove_last_image.py:35-51 | a run from a missing ledger over clean paths with every append succeeding leaves one line per completed attempt, and loading that file gives exactly the completed paths |
| ImageRemoval.CompletedPathsSpec | docToolsBox/remove_last_image.py:138 | a path counts as completed exactly when one of its attempts completed |
| ImageRemoval.ProcessAll | docToolsBox/remove_last_image.py:164-165 | after `executor.map` run in order, the set holds exactly the completed files on top of what it held; the ledger text is the old text with `path + "\n"` appended for each completed file whose append succeeded, in order (`LogAfter`); a file met for the first time ends as `process_file` on the documents of the start; a document listed exactly once ends edited (`Edited`) when its attempt saved and unchanged otherwise (`BodyAfter`); documents not listed are unchanged |
| ImageRemoval.RemoveImagesInTree | docToolsBox/remove_last_image.py:143-165 | `main`: the files processed are the candidates against the loaded ledger, and the attempts, set, ledger text and final documents are those of `ProcessAll` on them: a candidate met once ends as `BodyAfter` its attempt, and every other document is unchanged |
| Conversion.TargetPathSpec | docToolsBox/doc2docx.py:122 | the target differs from the source; distinct sources have distinct targets; a `.doc` path gives a `.docx` path, which the converter never picks up |
| Conversion.RemoveOnlyAfterConversion | docToolsBox/doc2docx.py:130-141 | the original is removed only after Open, SaveAs and Close returned, in that order; the file is marked exactly when every step returned, as the last effect, after the removal |
| Conversion.FailureClosesOpenDocument | docToolsBox/doc2docx.py:143-152 | on failure the file is not marked, and the document is closed without saving exactly when SaveAs or Close raised |
| Conversion.OriginalOrTargetSurvives | docToolsBox/doc2docx.py:130-152 | whatever fails, the original or a file at its `.docx` target path exists afterwards; success leaves the target and not the original; a failure keeps the original; no path other than the original and its target changes |
| Conversion.ProcessFile | docToolsBox/doc2docx.py:120-152 | the effects are exactly `Calls` in order; the file system afterwards is `FilesAfter`; the ledger changes by one mark exactly when the conversion succeeded |
| Conversion.TaskQueue.constructor | docToolsBox/doc2docx.py:177 | a new queue is empty with no unfinished tasks |
| Conversion.TaskQueue.Put | docToolsBox/doc2docx.py:179 | `put` appends at the back and adds one unfinished task |
| Conversion.TaskQueue.Get | docToolsBox/doc2docx.py:92-96 | `get` takes the front item, or times out and leaves the queue alone when it is empty or the timeout fires |
| Conversion.TaskQueue.TaskDone | docToolsBox/doc2docx.py:107 | `task_done` removes one unfinished task; calling it more often than items were taken is excluded |
| Conversion.QueueOf | docToolsBox/doc2docx.py:177-183 | the queue holds every candidate in order followed by `NUM_THREADS` sentinels |
| Conversion.FillQueue | docToolsBox/doc2docx.py:177-183 | the two `put` loops append exactly `QueueOf(files)` and count one unfinished task per item |
| Conversion.Prepare | docToolsBox/doc2docx.py:155-183 | `main` up to the threads: the ledger is loaded, the candidates are discovered against it, nothing more happens when there are none, and otherwise a fresh queue holds `QueueOf` of them |
| Conversion.TakeSpec | docToolsBox/doc2docx.py:90-100 | a worker takes a prefix of the queue, and a sentinel can only be the last thing it takes |
| Conversion.TakeQueue | docToolsBox/doc2docx.py:90-107 | a worker alone on `main`'s queue that is never timed out takes every candidate and then exactly one sentinel |
| Conversion.Convert | docToolsBox/doc2docx.py:102-107 | the worker's `process_file` call on the path just taken: the path joins the converted ones exactly when no step failed; the files afterwards are `FilesAfter`; the ledger text grows by the path's line exactly when it converted and the append succeeded; the set stays what it was at the start plus the paths converted so far, and every converted path is one of those taken |
| Conversion.Worker | docToolsBox/doc2docx.py:74-118 | a worker whose Word fails to start takes nothing; otherwise it takes exactly `Take` of the queue, which is left as the rest; there is one `task_done` per item taken; the set grows by exactly the files it converted, all of them taken |

## Left out

- Word automation (`Dispatch`, `Visible`, `DisplayAlerts`, `Quit`) and `CoInitialize`/`CoUninitialize` are outside the model. Only whether each call returns is modelled, through `StepResults` and `engineStarts`.
- python-docx's `Document(path)` and `doc.save` are modelled as a map from path to body element plus a boolean for whether the save returns. Package formats and XML serialisation are not modelled.
- Namespace maps: the `w` prefix in `findall` is taken as the standard WordprocessingML namespace. lxml comment and processing-instruction nodes, which have non-string tags, are not modelled.
- Threads and locks: `ThreadPoolExecutor.map` is run in order (`ImageRemoval.ProcessAll`). One `worker` is modelled on its own queue. `task_queue.join()`, thread joins and interleavings between workers are not modelled. When Word fails to start in a worker (`doc2docx.py:74-118`), that worker returns without taking its `None` sentinel or calling `task_done`. The items it leaves are never marked done, so `task_queue.join()` in `main` can wait for ever; `Conversion.Worker` shows that such a worker takes nothing.
- Blocking: `q.get(timeout=3)` on an empty queue retries forever in the code. In the model the loop ends when the given timeouts run out.
- Logging and the error log file are outside the model: they are output only.
- File contents are not modelled: the file system is a set of paths and a document is its body. So `SaveAs` overwriting an existing `.docx` at the target path (`doc2docx.py:124-127`) does not show, and a `doc.save` that raises part-way in `remove_last_image.py:134` is taken to leave the stored document as it was, although a real failed save can leave a truncated file.
- `os.walk` and `os.getcwd` are given as a sequence of `(root, files)` steps, and `abspath(join(root, name))` as an uninterpreted function.
- `Text.Lower` lower-cases ASCII only. Python's full Unicode case mapping is not modelled.
- Ledger reads split lines at `\n` only. A text-mode read (`open(..., 'r')` at `remove_last_image.py:38` and `doc2docx.py:57`) also ends a line at `\r` and at `\r\n`; that translation is not modelled, so the model's ledger text is the text after translation. For this reason `Progress.Clean` excludes `\r` as well as `\n` inside a path.
- Progress.ReloadAfterMark: holds for a clean path only. A path holding `\r` is written as is by `mark_as_processed`, is read back as two lines, and so is never found processed, so every rerun treats that file again.
- Progress.ReplayLedger: holds for clean paths only, for the same reason: a path holding `\r` reads back as two other entries.
- ImageRemoval.CleanRunLedger: holds for clean paths only, for the same reason: a file whose path holds `\r` is not found processed on the next run.
- `NUM_THREADS` in `remove_last_image.py` sets only the executor size, which a sequential model does not need.
- Conversion.Worker: says that every converted file was taken, but not which of the taken files converted, because that depends on the file system as earlier files left it. `Conversion.Convert` and `Conversion.ProcessFile` state each conversion exactly.
- ImageRemoval.ProcessAll: states each attempt and each final document exactly only for a path's first (and, for the document, only) occurrence in the list. A later visit of the same path sees the document the first visit saved. `os.walk` lists each path once, so in `main` (`ImageRemoval.RemoveImagesInTree`) this covers every candidate unless `fullPath` maps two entries to one path.
