/** The print-queue driver of the main window as a state machine over values.
    Each user action and each print-job completion is one step function from
    the old state to the new one; the window class is proved to perform exactly
    these steps, and the lemmas below are about the steps. */
module Driver {
  import opened Rows

  /** The rows of the grid, the driver's two fields, whether a print thread has
      been started whose completion callback has not run yet, and whether a
      run holds the Print, Clear and Remove-deselected buttons disabled. */
  datatype Queue = Queue(
    rows: seq<Row>,
    printingIndex: int,
    stopping: bool,
    inFlight: bool,
    running: bool)

  /** The window as it opens. */
  function Initial(): Queue {
    Queue([], -1, false, false, false)
  }

  /** The invariant between two events: the buttons are locked exactly while a
      job is in flight, that job's row is in the list, and it is the only row
      that shows "Printing...". */
  predicate Valid(q: Queue) {
    && q.printingIndex >= -1
    && (q.running <==> q.inFlight)
    && (q.inFlight ==> 0 <= q.printingIndex < |q.rows|)
    && forall j :: 0 <= j < |q.rows| ==>
         (q.rows[j].status == Printing <==> q.inFlight && j == q.printingIndex)
  }

  /** The state in which the advance step is entered: a run is on, no job is in
      flight and no row shows "Printing...". */
  predicate Settling(q: Queue) {
    && 0 <= q.printingIndex
    && q.running
    && !q.inFlight
    && forall j :: 0 <= j < |q.rows| ==> q.rows[j].status != Printing
  }

  /** During a run every row below the cursor is unticked. */
  predicate CursorInv(q: Queue) {
    q.running ==> forall j :: 0 <= j < q.printingIndex && j < |q.rows| ==> !q.rows[j].selected
  }

  function EndRun(q: Queue): Queue {
    q.(stopping := false, running := false)
  }

  // ---------------------------------------------------------------------------
  // The steps

  /** Dropping files onto the grid. */
  function Drop(q: Queue, files: seq<string>): (r: Queue)
    ensures |r.rows| == |q.rows| + |PdfRows(files)|
    ensures r.rows[..|q.rows|] == q.rows
    ensures r.rows[|q.rows|..] == PdfRows(files)
    ensures r.(rows := q.rows) == q
  {
    q.(rows := q.rows + PdfRows(files))
  }

  /** The advance step print(): unless a stop was requested, skip unticked rows
      from the cursor on; at the first ticked row, mark it "Printing..." and
      launch its job; otherwise end the run. */
  function Advance(q: Queue): (r: Queue)
    requires 0 <= q.printingIndex && !q.inFlight
    ensures |r.rows| == |q.rows|
    ensures q.printingIndex <= r.printingIndex
    ensures r.inFlight <==>
      !q.stopping && exists j :: q.printingIndex <= j < |q.rows| && q.rows[j].selected
    ensures r.inFlight ==>
      && r.printingIndex < |q.rows|
      && q.rows[r.printingIndex].selected
      && r.rows == q.rows[r.printingIndex := q.rows[r.printingIndex].(status := Printing)]
      && r.stopping == q.stopping
      && r.running == q.running
    ensures !q.stopping ==>
      forall j :: q.printingIndex <= j < r.printingIndex ==> j < |q.rows| && !q.rows[j].selected
    ensures !r.inFlight ==>
      && r == q.(printingIndex := r.printingIndex, stopping := false, running := false)
      && r.printingIndex == (if q.stopping || |q.rows| < q.printingIndex then q.printingIndex else |q.rows|)
  {
    if q.stopping then EndRun(q)
    else
      var k := FirstSelectedFrom(q.rows, q.printingIndex);
      if k < |q.rows| then
        q.(rows := q.rows[k := q.rows[k].(status := Printing)], printingIndex := k, inFlight := true)
      else
        EndRun(q.(printingIndex := k))
  }

  /** Pressing Print with the printer dialog confirmed or not: nothing happens
      when no row is ticked or the dialog is cancelled; otherwise the run starts
      at the first ticked row. */
  function Start(q: Queue, confirmed: bool): (r: Queue)
    requires !q.running && !q.inFlight
    ensures SelectedCount(q.rows) == 0 || !confirmed ==> r == q
    ensures SelectedCount(q.rows) > 0 && confirmed ==>
      && r.inFlight && r.running && !r.stopping
      && 0 <= r.printingIndex < |q.rows|
      && q.rows[r.printingIndex].selected
      && (forall j :: 0 <= j < r.printingIndex ==> !q.rows[j].selected)
      && r.rows == q.rows[r.printingIndex := q.rows[r.printingIndex].(status := Printing)]
  {
    if SelectedCount(q.rows) == 0 || !confirmed then q
    else
      SelectedCountZero(q.rows);
      Advance(q.(printingIndex := 0, stopping := false, running := true))
  }

  /** The first half of the completion callback: the job's row is unticked and
      gets "Printed" or "Failed"; nothing else changes. */
  function Finish(q: Queue, result: bool): (r: Queue)
    requires q.inFlight && 0 <= q.printingIndex < |q.rows|
    ensures |r.rows| == |q.rows|
    ensures r.rows[q.printingIndex] ==
      Row(q.rows[q.printingIndex].path, false, if result then Printed else Failed)
    ensures forall j :: 0 <= j < |q.rows| && j != q.printingIndex ==> r.rows[j] == q.rows[j]
    ensures r == q.(rows := r.rows, inFlight := false)
  {
    var p := q.printingIndex;
    var status := if result then Printed else Failed;
    q.(rows := q.rows[p := q.rows[p].(selected := false, status := status)], inFlight := false)
  }

  /** The completion callback: finish the job's row, then re-enter print(),
      whose loop moves past that row because it is now unticked. */
  function Complete(q: Queue, result: bool): (r: Queue)
    requires q.inFlight && 0 <= q.printingIndex < |q.rows|
    ensures |r.rows| == |q.rows|
    ensures !q.stopping ==> q.printingIndex < r.printingIndex
    ensures q.stopping ==>
      && !r.inFlight && !r.running && !r.stopping
      && r.printingIndex == q.printingIndex
      && r.rows == Finish(q, result).rows
    ensures r.rows[q.printingIndex] ==
      Row(q.rows[q.printingIndex].path, false, if result then Printed else Failed)
    ensures forall j :: 0 <= j < |q.rows| && j != q.printingIndex && !(r.inFlight && j == r.printingIndex) ==>
      r.rows[j] == q.rows[j]
  {
    Advance(Finish(q, result))
  }

  /** Pressing Stop: only the flag is raised; the job in flight runs on. */
  function Stop(q: Queue): (r: Queue)
    ensures r.stopping
    ensures r.(stopping := q.stopping) == q
  {
    q.(stopping := true)
  }

  /** Clicking a row's Print? check box. */
  function Toggle(q: Queue, i: nat, selected: bool): (r: Queue)
    requires i < |q.rows|
    ensures |r.rows| == |q.rows|
    ensures r.rows[i] == q.rows[i].(selected := selected)
    ensures forall j :: 0 <= j < |q.rows| && j != i ==> r.rows[j] == q.rows[j]
    ensures r.(rows := q.rows) == q
  {
    q.(rows := q.rows[i := q.rows[i].(selected := selected)])
  }

  /** Remove deselected, confirmed or not; its button is disabled during a run. */
  function RemoveDeselected(q: Queue, confirmed: bool): (r: Queue)
    requires !q.running
    ensures confirmed ==> r.rows == Kept(q.rows)
    ensures !confirmed ==> r.rows == q.rows
    ensures r.(rows := q.rows) == q
  {
    if confirmed then q.(rows := Kept(q.rows)) else q
  }

  /** Clear, confirmed or not; its button is disabled during a run. The cursor
      is left where it was. */
  function Clear(q: Queue, confirmed: bool): (r: Queue)
    requires !q.running
    ensures confirmed ==> r.rows == []
    ensures !confirmed ==> r.rows == q.rows
    ensures r.(rows := q.rows) == q
  {
    if confirmed then q.(rows := []) else q
  }

  // ---------------------------------------------------------------------------
  // Events and runs

  datatype Event =
    | DropFiles(files: seq<string>)
    | PrintClicked(confirmed: bool)
    | JobDone(result: bool)
    | StopClicked
    | CheckBox(index: nat, selected: bool)
    | RemoveDeselectedClicked(confirmed: bool)
    | ClearClicked(confirmed: bool)

  /** When the window lets an event happen: buttons disabled during a run, a
      completion only for a launched job, a check box only on an existing row. */
  predicate Enabled(q: Queue, e: Event) {
    match e
    case DropFiles(_) => true
    case PrintClicked(_) => !q.running && !q.inFlight
    case JobDone(_) => q.inFlight && 0 <= q.printingIndex < |q.rows|
    case StopClicked => true
    case CheckBox(i, _) => i < |q.rows|
    case RemoveDeselectedClicked(_) => !q.running
    case ClearClicked(_) => !q.running
  }

  function Step(q: Queue, e: Event): Queue
    requires Enabled(q, e)
  {
    match e
    case DropFiles(files) => Drop(q, files)
    case PrintClicked(confirmed) => Start(q, confirmed)
    case JobDone(result) => Complete(q, result)
    case StopClicked => Stop(q)
    case CheckBox(i, selected) => Toggle(q, i, selected)
    case RemoveDeselectedClicked(confirmed) => RemoveDeselected(q, confirmed)
    case ClearClicked(confirmed) => Clear(q, confirmed)
  }

  /** A sequence of events each of which is enabled when it happens. */
  predicate Trace(q: Queue, events: seq<Event>)
    decreases |events|
  {
    events == [] || (Enabled(q, events[0]) && Trace(Step(q, events[0]), events[1..]))
  }

  function Run(q: Queue, events: seq<Event>): Queue
    requires Trace(q, events)
    decreases |events|
  {
    if events == [] then q else Run(Step(q, events[0]), events[1..])
  }

  // ---------------------------------------------------------------------------
  // Invariants

  lemma DropValid(q: Queue, files: seq<string>)
    requires Valid(q)
    ensures Valid(Drop(q, files))
  {
    var r := Drop(q, files);
    forall j | |q.rows| <= j < |r.rows| ensures r.rows[j].status == Blank {
      assert r.rows[j] == PdfRows(files)[j - |q.rows|];
    }
  }

  lemma AdvanceValid(q: Queue)
    requires Settling(q)
    ensures Valid(Advance(q))
  {
  }

  lemma StartValid(q: Queue, confirmed: bool)
    requires Valid(q) && !q.running
    ensures Valid(Start(q, confirmed))
  {
    if SelectedCount(q.rows) > 0 && confirmed {
      AdvanceValid(q.(printingIndex := 0, stopping := false, running := true));
    }
  }

  lemma CompleteValid(q: Queue, result: bool)
    requires Valid(q) && q.inFlight
    ensures Valid(Complete(q, result))
  {
    AdvanceValid(Finish(q, result));
  }

  lemma RemoveDeselectedValid(q: Queue, confirmed: bool)
    requires Valid(q) && !q.running
    ensures Valid(RemoveDeselected(q, confirmed))
  {
    if confirmed {
      var r := RemoveDeselected(q, confirmed);
      forall j | 0 <= j < |r.rows| ensures r.rows[j].status != Printing {
        KeptMembers(q.rows, r.rows[j]);
      }
    }
  }

  /** Every enabled event keeps the invariant. */
  lemma StepValid(q: Queue, e: Event)
    requires Valid(q) && Enabled(q, e)
    ensures Valid(Step(q, e))
  {
    match e
    case PrintClicked(confirmed) => StartValid(q, confirmed);
    case JobDone(result) => CompleteValid(q, result);
    case RemoveDeselectedClicked(confirmed) => RemoveDeselectedValid(q, confirmed);
    case DropFiles(files) => DropValid(q, files);
    case _ =>
  }

  /** In every state the window can reach, at most one job is in flight and no
      row but its own shows "Printing...". */
  lemma {:induction false} RunValid(q: Queue, events: seq<Event>)
    requires Valid(q) && Trace(q, events)
    ensures Valid(Run(q, events))
    decreases |events|
  {
    if events != [] {
      StepValid(q, events[0]);
      RunValid(Step(q, events[0]), events[1..]);
    }
  }

  lemma ReachableValid(events: seq<Event>)
    requires Trace(Initial(), events)
    ensures Valid(Run(Initial(), events))
  {
    RunValid(Initial(), events);
  }

  /** Only Print moves the cursor back (to row 0), and Print is disabled during a run. */
  lemma StepMonotone(q: Queue, e: Event)
    requires Enabled(q, e) && !e.PrintClicked?
    ensures q.printingIndex <= Step(q, e).printingIndex
  {
  }

  /** The cursor never decreases over a stretch of events without Print. */
  lemma {:induction false} RunMonotone(q: Queue, events: seq<Event>)
    requires Trace(q, events)
    requires forall k :: 0 <= k < |events| ==> !events[k].PrintClicked?
    ensures q.printingIndex <= Run(q, events).printingIndex
    decreases |events|
  {
    if events != [] {
      StepMonotone(q, events[0]);
      RunMonotone(Step(q, events[0]), events[1..]);
    }
  }

  /** Ticking a row that the cursor has already passed, during a run. */
  predicate TicksBehindCursor(q: Queue, e: Event) {
    e.CheckBox? && e.selected && q.running && e.index < q.printingIndex
  }

  /** Every event except ticking a row behind the cursor mid-run keeps the rows
      below the cursor unticked. */
  lemma StepCursorInv(q: Queue, e: Event)
    requires Valid(q) && CursorInv(q) && Enabled(q, e) && !TicksBehindCursor(q, e)
    ensures CursorInv(Step(q, e))
  {
    match e
    case JobDone(result) =>
      var f := Finish(q, result);
      assert forall j :: 0 <= j <= q.printingIndex ==> !f.rows[j].selected;
    case _ =>
  }

  /** An event sequence, each event enabled when it happens, that never ticks
      a row behind the cursor during a run. */
  predicate NoTickBehind(q: Queue, events: seq<Event>)
    decreases |events|
  {
    events == [] ||
      (Enabled(q, events[0]) && !TicksBehindCursor(q, events[0]) && NoTickBehind(Step(q, events[0]), events[1..]))
  }

  /** Over any such sequence the rows below the cursor stay unticked. */
  lemma {:induction false} RunCursorInv(q: Queue, events: seq<Event>)
    requires Valid(q) && CursorInv(q) && NoTickBehind(q, events)
    ensures Trace(q, events) && CursorInv(Run(q, events))
    decreases |events|
  {
    if events != [] {
      StepValid(q, events[0]);
      StepCursorInv(q, events[0]);
      RunCursorInv(Step(q, events[0]), events[1..]);
    }
  }

  /** From the opening window, as long as the user ticks no row behind the
      cursor mid-run, every row below the cursor is unticked during a run. */
  lemma ReachableCursorInv(events: seq<Event>)
    requires NoTickBehind(Initial(), events)
    ensures Trace(Initial(), events) && CursorInv(Run(Initial(), events))
  {
    RunCursorInv(Initial(), events);
  }

  /** In a valid state the Print handler's own guard, the Print button being
      enabled, already rules out a job in flight: the extra conjunct of
      Enabled excludes no valid state. */
  lemma PrintGuard(q: Queue, confirmed: bool)
    requires Valid(q)
    ensures Enabled(q, PrintClicked(confirmed)) <==> !q.running
  {
  }

  /** The in-flight job is never replaced or abandoned: until its completion
      arrives, every other event leaves it in flight at the same row. */
  lemma InFlightKept(q: Queue, e: Event)
    requires Valid(q) && q.inFlight && Enabled(q, e) && !e.JobDone?
    ensures Step(q, e).inFlight
    ensures Step(q, e).printingIndex == q.printingIndex
    ensures Step(q, e).rows[q.printingIndex].path == q.rows[q.printingIndex].path
  {
    if e.DropFiles? {
      assert Step(q, e).rows[..|q.rows|] == q.rows;
    }
  }

  /** A run changes no row that was unticked, except a job row whose box was
      unticked while it printed. */
  lemma UntickedUntouched(q: Queue, e: Event, j: nat)
    requires Enabled(q, e) && (e.PrintClicked? || e.JobDone?)
    requires j < |q.rows| && !q.rows[j].selected && !(q.inFlight && j == q.printingIndex)
    ensures Step(q, e).rows[j] == q.rows[j]
  {
  }

  // ---------------------------------------------------------------------------
  // Stop

  /** A stop requested while a job prints ends the run at that job's completion:
      that row gets its outcome and nothing else changes, so no further row is
      marked "Printing...". */
  lemma StopThenComplete(q: Queue, result: bool)
    requires Valid(q) && q.inFlight
    ensures var r := Complete(Stop(q), result);
      && !r.inFlight && !r.running && !r.stopping
      && r.printingIndex == q.printingIndex
      && r.rows == q.rows[q.printingIndex := Row(q.rows[q.printingIndex].path, false, if result then Printed else Failed)]
      && forall j :: 0 <= j < |r.rows| ==> r.rows[j].status != Printing
  {
    var r := Complete(Stop(q), result);
    assert Finish(Stop(q), result).rows == r.rows;
  }

  /** Stopping an idle window changes no row, and the next Print that starts a
      run behaves as if Stop had not been pressed. */
  lemma StopIdle(q: Queue, confirmed: bool)
    requires !q.running && !q.inFlight
    ensures Stop(q).rows == q.rows
    ensures SelectedCount(q.rows) > 0 && confirmed ==> Start(Stop(q), confirmed) == Start(q, confirmed)
    ensures SelectedCount(q.rows) == 0 || !confirmed ==> Start(Stop(q), confirmed) == Stop(q)
  {
  }

  // ---------------------------------------------------------------------------
  // Scenarios

  /** Rows A (ticked), B (unticked), C (ticked): A and C print in order, B is
      never touched. */
  lemma ScenarioSkipsUnticked(a: string, b: string, c: string)
    ensures
      var q0 := Queue([Row(a, true, Blank), Row(b, false, Blank), Row(c, true, Blank)], -1, false, false, false);
      var q1 := Start(q0, true);
      && q1 == Queue([Row(a, true, Printing), Row(b, false, Blank), Row(c, true, Blank)], 0, false, true, true)
      && var q2 := Complete(q1, true);
      && q2 == Queue([Row(a, false, Printed), Row(b, false, Blank), Row(c, true, Printing)], 2, false, true, true)
      && Complete(q2, false) == Queue([Row(a, false, Printed), Row(b, false, Blank), Row(c, false, Failed)], 3, false, false, false)
  {
    var q0 := Queue([Row(a, true, Blank), Row(b, false, Blank), Row(c, true, Blank)], -1, false, false, false);
    SelectedCountZero(q0.rows);
    var q1 := Queue([Row(a, true, Printing), Row(b, false, Blank), Row(c, true, Blank)], 0, false, true, true);
    assert Start(q0, true) == q1;
    var f1 := Finish(q1, true);
    assert FirstSelectedFrom(f1.rows, 0) == 2 by {
      assert FirstSelectedFrom(f1.rows, 0) == FirstSelectedFrom(f1.rows, 1) == FirstSelectedFrom(f1.rows, 2);
    }
    var q2 := Queue([Row(a, false, Printed), Row(b, false, Blank), Row(c, true, Printing)], 2, false, true, true);
    assert Complete(q1, true) == q2;
    var f2 := Finish(q2, false);
    assert FirstSelectedFrom(f2.rows, 2) == 3;
  }

  /** Stop while A prints: A completes and the run ends before C. */
  lemma ScenarioStop(a: string, b: string, c: string, result: bool)
    ensures
      var q0 := Queue([Row(a, true, Blank), Row(b, false, Blank), Row(c, true, Blank)], -1, false, false, false);
      var q1 := Start(q0, true);
      && q1 == Queue([Row(a, true, Printing), Row(b, false, Blank), Row(c, true, Blank)], 0, false, true, true)
      && Complete(Stop(q1), result) ==
         Queue([Row(a, false, if result then Printed else Failed), Row(b, false, Blank), Row(c, true, Blank)], 0, false, false, false)
  {
    var q0 := Queue([Row(a, true, Blank), Row(b, false, Blank), Row(c, true, Blank)], -1, false, false, false);
    SelectedCountZero(q0.rows);
  }

  /** Dropping "x.pdf", "y.txt" and "Z.PDF" adds the two PDFs, in that order. */
  lemma ScenarioDrop()
    ensures PdfRows(["x.pdf", "y.txt", "Z.PDF"]) == [NewRow("x.pdf"), NewRow("Z.PDF")]
  {
    var files := ["x.pdf", "y.txt", "Z.PDF"];
    IsPdfPathIff("x.pdf");
    IsPdfPathIff("y.txt");
    IsPdfPathIff("Z.PDF");
    assert files[..2][..1] == ["x.pdf"];
    assert files[..2] == ["x.pdf", "y.txt"];
    assert ["x.pdf"][..0] == [];
  }

  /** Unticking and re-ticking a row before a run restores the row. */
  lemma ToggleTwice(q: Queue, i: nat)
    requires i < |q.rows| && q.rows[i].selected
    ensures Toggle(Toggle(q, i, false), i, true) == q
  {
  }
}
