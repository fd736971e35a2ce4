/** The main window with its grid and driver fields updated in place. Each
    event handler is proved to perform exactly the corresponding step of the
    driver's state machine and to keep its invariant. */
module Form {
  import opened Rows
  import Driver

  class PrintQueue {
    /** The grid's rows. */
    var rows: seq<Row>
    /** The driver's cursor; -1 until the first run. */
    var printingIndex: int
    /** Set by Stop, read and cleared by the advance step. */
    var stopping: bool
    /** A print thread has been started and its completion has not run yet. */
    var inFlight: bool
    /** The Print, Clear and Remove-deselected buttons are disabled. */
    var running: bool

    function State(): Driver.Queue
      reads this
    {
      Driver.Queue(rows, printingIndex, stopping, inFlight, running)
    }

    ghost predicate Valid()
      reads this
    {
      Driver.Valid(State())
    }

    constructor ()
      ensures State() == Driver.Initial() && Valid()
    {
      rows := [];
      printingIndex := -1;
      stopping := false;
      inFlight := false;
      running := false;
    }

    /** The drop handler: append a fresh row for each dropped PDF, in order. */
    method DragDrop(files: seq<string>)
      requires Valid()
      modifies this`rows
      ensures State() == Driver.Drop(old(State()), files) && Valid()
    {
      var i := 0;
      while i < |files|
        invariant 0 <= i <= |files|
        invariant rows == old(rows) + PdfRows(files[..i])
      {
        ghost var prefix := files[..i + 1];
        assert prefix[..i] == files[..i];
        assert PdfRows(prefix) == PdfRows(files[..i]) + (if IsPdfPath(files[i]) then [NewRow(files[i])] else []);
        if IsPdfPath(files[i]) {
          rows := rows + [NewRow(files[i])];
        }
        i := i + 1;
      }
      assert files[..i] == files;
      Driver.DropValid(old(State()), files);
    }

    /** The counting loop at the top of the Print handler. */
    method CountSelected() returns (count: nat)
      ensures count == SelectedCount(rows)
      ensures count == 0 <==> forall k :: 0 <= k < |rows| ==> !rows[k].selected
    {
      count := 0;
      var i := 0;
      while i < |rows|
        invariant 0 <= i <= |rows|
        invariant count == SelectedCount(rows[..i])
      {
        assert rows[..i + 1][..i] == rows[..i];
        if rows[i].selected {
          count := count + 1;
        }
        i := i + 1;
      }
      assert rows[..i] == rows;
      SelectedCountZero(rows);
    }

    /** The Print handler; `confirmed` is whether the printer dialog was
        closed with OK. */
    method PrintClick(confirmed: bool)
      requires Valid() && !running
      modifies this
      ensures State() == Driver.Start(old(State()), confirmed) && Valid()
    {
      var count := CountSelected();
      if count == 0 {
        return;
      }
      if confirmed {
        printingIndex := 0;
        stopping := false;
        running := true;
        Advance();
      }
      Driver.StartValid(old(State()), confirmed);
    }

    /** The advance step print(): its loop moves the cursor field itself. */
    method Advance()
      requires 0 <= printingIndex && !inFlight
      modifies this
      ensures State() == Driver.Advance(old(State()))
    {
      if !stopping {
        while printingIndex < |rows|
          invariant old(printingIndex) <= printingIndex
          invariant State() == old(State()).(printingIndex := printingIndex)
          invariant FirstSelectedFrom(rows, printingIndex) == FirstSelectedFrom(rows, old(printingIndex))
        {
          if !rows[printingIndex].selected {
            printingIndex := printingIndex + 1;
            continue;
          }
          rows := rows[printingIndex := rows[printingIndex].(status := Printing)];
          inFlight := true;
          return;
        }
      }
      stopping := false;
      running := false;
    }

    /** The completion callback of the job in flight, with its outcome. */
    method JobDone(result: bool)
      requires Valid() && inFlight
      modifies this
      ensures State() == Driver.Complete(old(State()), result) && Valid()
    {
      var status := if result then Printed else Failed;
      rows := rows[printingIndex := rows[printingIndex].(selected := false, status := status)];
      inFlight := false;
      Advance();
      Driver.CompleteValid(old(State()), result);
    }

    /** The Stop handler. */
    method StopClick()
      requires Valid()
      modifies this`stopping
      ensures State() == Driver.Stop(old(State())) && Valid()
    {
      stopping := true;
    }

    /** A click on row i's Print? check box. */
    method CheckBoxClick(i: nat, selected: bool)
      requires Valid() && i < |rows|
      modifies this`rows
      ensures State() == Driver.Toggle(old(State()), i, selected) && Valid()
    {
      rows := rows[i := rows[i].(selected := selected)];
    }

    /** The Remove-deselected handler. */
    method RemoveDeselectedClick(confirmed: bool)
      requires Valid() && !running
      modifies this`rows
      ensures State() == Driver.RemoveDeselected(old(State()), confirmed) && Valid()
    {
      if confirmed {
        RemoveUnticked();
      }
      Driver.RemoveDeselectedValid(old(State()), confirmed);
    }

    /** The backward loop of the Remove-deselected handler: walking from the
        last row down, RemoveAt(i) only shifts rows already visited. */
    method RemoveUnticked()
      modifies this`rows
      ensures rows == Kept(old(rows))
    {
      ghost var original := rows;
      var i := |rows| - 1;
      while i >= 0
        invariant -1 <= i < |original|
        invariant rows == original[..i + 1] + Kept(original[i + 1..])
      {
        RemoveAtStep(original, rows, i);
        if !rows[i].selected {
          rows := rows[..i] + rows[i + 1..];
        }
        i := i - 1;
      }
      assert original[0..] == original;
    }

    /** The Clear handler. */
    method ClearClick(confirmed: bool)
      requires Valid() && !running
      modifies this`rows
      ensures State() == Driver.Clear(old(State()), confirmed) && Valid()
    {
      if confirmed {
        rows := [];
      }
    }
  }
}
