# PDFBatchPrint print queue, modelled in Dafny

PDFBatchPrint is a Windows Forms tool. The user drops PDF files onto a grid,
ticks the files to print, picks a printer and presses Print. The main window
(`PDFBatchPrint/Form1.cs`) then prints the ticked rows one at a time. It marks
a row "Printing...", starts a thread for that file, and when the thread's
completion callback runs on the UI thread it unticks the row, sets "Printed" or
"Failed", and calls the advance step `print()` again. Stop raises a flag that
`print()` checks between files.

The model has three modules:

- `Rows` (`Rows.dfy`): a grid row `(path, selected, status)`, where status is
  one of the four texts `""`, `"Printing..."`, `"Printed"`, `"Failed"`. It also
  holds the pure functions the other modules are specified by: the
  case-insensitive `.pdf` filter (`PdfRows`), the count of ticked rows
  (`SelectedCount`), the rows that survive "Remove deselected" (`Kept`), and
  where the skip loop of `print()` stops (`FirstSelectedFrom`).
- `Driver` (`Driver.dfy`): the window's state as a value (`Queue`: rows,
  `printingIndex`, `stopping`, a job-in-flight flag and the disabled state of
  the Print/Clear/Remove-deselected buttons). Each event is a step function.
  The lemmas cover the invariant every reachable state keeps, cursor
  monotonicity, the "rows behind the cursor are unticked" invariant, stop
  behaviour and concrete scenarios.
- `Form` (`Form.dfy`): class `PrintQueue` with those fields, mutated in place
  by one method per event handler. The loops are kept: the drop loop, the
  counting loop, the `print()` loop that moves the `printingIndex` field, and
  the backward `RemoveAt` loop. Every event handler is proved to perform
  exactly the matching `Driver` step and to keep `Driver.Valid`. The helpers
  `Advance` and `RemoveUnticked` run on intermediate states; they are proved
  equal to `Driver.Advance` and to `Kept` of the old rows.

The thread and its completion are modelled without concurrency. `inFlight`
becomes true when `print()` launches a job. The completion is the separate
method `PrintQueue.JobDone(result)`, which may only be called while `inFlight`
holds. The job's outcome `result` is an arbitrary `bool`. The printer dialog is
the `bool` parameter `confirmed` of `PrintClick`. The Yes/No confirmation boxes
of Clear and Remove deselected are the `confirmed` parameters of those methods.

Three behaviours of the code that the model keeps as they are:

- The code never resets `printingIndex` to -1, neither when a run ends nor on
  Clear. After a run the cursor stays where the loop left it (the end of the
  list, or the last printed row after a stop). The next Print sets it to 0.
- The blank status is the empty string `""`, not a separate "Pending" value.
- Non-PDF files dropped on the grid are skipped silently. No error is raised.

## Model

| member | source | states |
|---|---|---|
| Rows.IsPdfPathIff | PDFBatchPrint/Form1.cs:53 | a path passes the drop filter exactly when its last four characters are `.`, `p`/`P`, `d`/`D`, `f`/`F` (ASCII case-insensitive `.pdf` suffix) |
| Rows.StatusTextDistinct | PDFBatchPrint/Form1.cs:55-135 | the four Status texts `""`, `"Printing..."`, `"Printed"`, `"Failed"` the code writes are pairwise distinct, so the status value is determined by its text |
| Rows.PdfRows | PDFBatchPrint/Form1.cs:51-57 | the rows a drop appends are at most as many as the files; each is `(path, true, "")` and its path passes the `.pdf` filter |
| Rows.PdfRowsMembers | PDFBatchPrint/Form1.cs:51-57 | a fresh row for path p is appended exactly when p was dropped and passes the filter |
| Rows.PdfRowsAppend | PDFBatchPrint/Form1.cs:51-57 | the filter keeps dropped order: dropping a then b appends the rows of a followed by those of b |
| Rows.PdfRowsAllPdf | PDFBatchPrint/Form1.cs:51-57 | every dropped file gets a row exactly when every dropped file is a PDF |
| Rows.SelectedCountZero | PDFBatchPrint/Form1.cs:62-68 | the count is zero exactly when no row is ticked |
| Rows.Kept | PDFBatchPrint/Form1.cs:160-167 | the rows kept by Remove deselected are all ticked and are no more than the original rows |
| Rows.KeptMembers | PDFBatchPrint/Form1.cs:160-167 | a row is kept exactly when it was in the list and ticked |
| Rows.KeptAppend | PDFBatchPrint/Form1.cs:160-167 | removal keeps relative order: it works piecewise over any split of the list |
| Rows.KeptLength | PDFBatchPrint/Form1.cs:62-68 | the number of rows kept equals the count the Print handler computes |
| Rows.KeptFixpoint | PDFBatchPrint/Form1.cs:160-167 | removal changes the list exactly when some row is unticked, so a second removal does nothing |
| Rows.FirstSelectedFrom | PDFBatchPrint/Form1.cs:117-120 | the skip loop started at i stops at the first ticked row at or after i, having passed only unticked rows, or at the end of the list (at i itself if i is already past the end) |
| Rows.FirstSelectedFound | PDFBatchPrint/Form1.cs:62-72 | a run started at row 0 finds a row to print exactly when the count of ticked rows is non-zero |
| Driver.Drop | PDFBatchPrint/Form1.cs:48-58 | the existing rows are unchanged and followed by exactly the filtered rows; nothing else in the state changes |
| Driver.Advance | PDFBatchPrint/Form1.cs:112-154 | the cursor never moves back; a job is launched exactly when not stopping and a ticked row exists at or after the cursor; then the cursor is at that row, the rows it skipped are unticked, and only that row's status becomes "Printing..."; otherwise no row changes, `stopping` and the button lock are reset, and the cursor ends at the end of the list (or stays put when stopping) |
| Driver.Start | PDFBatchPrint/Form1.cs:60-95 | with no ticked row or a cancelled dialog nothing changes; otherwise the run starts with the first ticked row "Printing...", everything before it unticked, the job in flight, `stopping` false and the buttons locked |
| Driver.Finish | PDFBatchPrint/Form1.cs:129-136 | the completion unticks the job's row and sets "Printed" on success, "Failed" otherwise; no other row or field changes, and no job is in flight |
| Driver.Complete | PDFBatchPrint/Form1.cs:127-139 | after the re-entered `print()` the cursor is strictly past the finished row unless stopping; when stopping the run ends right there with only the finished row changed; the finished row keeps its outcome; no row but the next job's changes |
| Driver.Stop | PDFBatchPrint/Form1.cs:171-176 | Stop raises `stopping` and changes nothing else (no row, not the job in flight) |
| Driver.Toggle | PDFBatchPrint/Form1.Designer.cs:80-88 | a check-box click changes that row's tick and nothing else |
| Driver.RemoveDeselected | PDFBatchPrint/Form1.cs:156-169 | when confirmed the rows become exactly `Kept` of the old rows; otherwise nothing changes; no driver field changes |
| Driver.Clear | PDFBatchPrint/Form1.cs:107-111 | when confirmed the list becomes empty; otherwise nothing changes; the cursor is not reset |
| Driver.AdvanceValid | PDFBatchPrint/Form1.cs:112-154 | entered with a run on and no job in flight, the advance step leaves a valid state: buttons locked exactly while a job is in flight, and the "Printing..." row is exactly the in-flight row |
| Driver.StartValid | PDFBatchPrint/Form1.cs:82-95 | starting a run keeps the invariant |
| Driver.DropValid | PDFBatchPrint/Form1.cs:48-58 | a drop keeps the invariant: the appended rows are blank, so the in-flight row stays the only "Printing..." row |
| Driver.CompleteValid | PDFBatchPrint/Form1.cs:127-139 | a completion keeps the invariant |
| Driver.RemoveDeselectedValid | PDFBatchPrint/Form1.cs:160-167 | removal keeps the invariant |
| Driver.StepValid | PDFBatchPrint/Form1.cs:48-176 | every event the window allows keeps the invariant |
| Driver.RunValid | PDFBatchPrint/Form1.cs:112-154 | the invariant holds after any allowed event sequence from a valid state |
| Driver.ReachableValid | PDFBatchPrint/Form1.cs:26-27 | in every state reachable from the opening window at most one job is in flight and no row but its own shows "Printing..." |
| Driver.PrintGuard | PDFBatchPrint/Form1.cs:88 | in a valid state Print is allowed exactly when its button is enabled (no run on): the model's extra "no job in flight" condition excludes no valid state |
| Driver.StepMonotone | PDFBatchPrint/Form1.cs:117 | no event but Print ever moves the cursor back |
| Driver.RunMonotone | PDFBatchPrint/Form1.cs:117-143 | over any event sequence without Print (so during a run, when Print is disabled) the cursor never decreases |
| Driver.StepCursorInv | PDFBatchPrint/Form1.cs:117-143 | during a run every row below the cursor stays unticked, for every event except the user ticking such a row |
| Driver.RunCursorInv | PDFBatchPrint/Form1.cs:117-143 | over any enabled event sequence that never ticks a row behind the cursor mid-run, the rows below the cursor stay unticked during a run |
| Driver.ReachableCursorInv | PDFBatchPrint/Form1.cs:117-143 | from the opening window, under the same condition, every reachable running state has all rows below the cursor unticked |
| Driver.InFlightKept | PDFBatchPrint/Form1.cs:123-143 | until its completion arrives, no event abandons or replaces the in-flight job: it stays at the same row and the same file |
| Driver.UntickedUntouched | PDFBatchPrint/Form1.cs:117-137 | starting a run and completing a job never change an unticked row, except a job row the user unticked while it printed |
| Driver.StopThenComplete | PDFBatchPrint/Form1.cs:115-147 | a stop during a job ends the run at that job's completion: only the job's row gets its outcome and no row is "Printing..." |
| Driver.StopIdle | PDFBatchPrint/Form1.cs:171-176 | Stop on an idle window changes no row, and a later Print that starts a run behaves as if Stop had not been pressed |
| Driver.ScenarioSkipsUnticked | PDFBatchPrint/Form1.cs:112-154 | with A ticked, B unticked, C ticked: A prints, then C, B is never touched and the run ends with the cursor at 3 |
| Driver.ScenarioStop | PDFBatchPrint/Form1.cs:112-176 | a stop while A prints: A gets its outcome and C stays ticked and blank |
| Driver.ScenarioDrop | PDFBatchPrint/Form1.cs:53-56 | dropping `x.pdf`, `y.txt`, `Z.PDF` appends rows for `x.pdf` and `Z.PDF`, in that order |
| Driver.ToggleTwice | PDFBatchPrint/Form1.Designer.cs:80-88 | unticking and re-ticking a ticked row restores the state |
| Form.PrintQueue.constructor | PDFBatchPrint/Form1.cs:26-27 | the window opens with no rows, cursor -1, not stopping, no job, buttons enabled |
| Form.PrintQueue.DragDrop | PDFBatchPrint/Form1.cs:48-58 | the drop loop performs `Driver.Drop` and keeps the invariant |
| Form.PrintQueue.CountSelected | PDFBatchPrint/Form1.cs:62-67 | the counting loop returns the number of ticked rows, which is zero exactly when none is ticked |
| Form.PrintQueue.PrintClick | PDFBatchPrint/Form1.cs:60-100 | the Print handler performs `Driver.Start` and keeps the invariant |
| Form.PrintQueue.Advance | PDFBatchPrint/Form1.cs:112-154 | the `print()` loop over the cursor field performs `Driver.Advance` |
| Form.PrintQueue.JobDone | PDFBatchPrint/Form1.cs:125-140 | the completion callback performs `Driver.Complete` and keeps the invariant |
| Form.PrintQueue.StopClick | PDFBatchPrint/Form1.cs:171-176 | the Stop handler performs `Driver.Stop` and keeps the invariant |
| Form.PrintQueue.CheckBoxClick | PDFBatchPrint/Form1.Designer.cs:80-88 | a check-box click performs `Driver.Toggle` and keeps the invariant |
| Form.PrintQueue.RemoveDeselectedClick | PDFBatchPrint/Form1.cs:156-169 | the Remove-deselected handler performs `Driver.RemoveDeselected` and keeps the invariant |
| Form.PrintQueue.RemoveUnticked | PDFBatchPrint/Form1.cs:160-167 | the backward `RemoveAt` loop leaves exactly `Kept` of the old rows and changes no other field |
| Rows.RemoveAtStep | PDFBatchPrint/Form1.cs:160-167 | one backward step: with the rows after i already filtered, removing row i when unticked leaves the rows from i on filtered, and row i is still the original row i |
| Form.PrintQueue.ClearClick | PDFBatchPrint/Form1.cs:107-111 | the Clear handler performs `Driver.Clear` and keeps the invariant |

## Left out

- Device-mode handling (Form1.cs:13-24, 75-80, 84-85, 96-98): foreign Windows calls. The printer dialog is reduced to the `confirmed` flag.
- `PrintThread.Print` and `finish` (Form1.cs:179-221): PdfiumViewer loading and printing and the blocking wait belong to an external library. The job's outcome is the arbitrary `result` of `JobDone`. The file a job prints is the path of the row at `printingIndex`.
- Threads and `Invoke` marshalling (Form1.cs:123-142): a job's completion is a separate event, allowed only while a job is in flight.
- The callback writes to the captured row object, not to an index. The model writes to row `printingIndex`. The model changes the list during a run only by appending at the end, since Clear and Remove deselected are disabled. The real grid also lets the user delete a row with the keyboard and re-order the rows by clicking any column header: every column's sort mode is automatic (Form1.Designer.cs:33-35, 87). Either can move the job's row away from `printingIndex` mid-run. Neither is modelled.
- Button texts and enabled states, message boxes, the printer list (Form1.cs:36-40, 70, 88-93, 148-153): cosmetic. The only trace in the model is the `running` lock that guards Print, Clear and Remove deselected.
- The Stop button is enabled only during a run before it is pressed (Form1.cs:90, 174; Form1.Designer.cs:143). `StopClick` is modelled without that guard, and `Driver.StopIdle` shows an early Stop has no effect.
- `ToLower` and `EndsWith` are culture-sensitive in .NET. The model lower-cases ASCII letters only and compares characters exactly.
- `Form1_DragEnter` (Form1.cs:43-46) only sets the cursor effect of a drag.
