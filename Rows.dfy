/** The rows of the batch-print list: one file path, its "Print?" check box and
    its "Status" text, together with the pure functions over a list of rows that
    the driver and the list operations are specified by. */
module Rows {

  /** The four texts the Status column can hold. */
  datatype Status = Blank | Printing | Printed | Failed {
    function Text(): string {
      match this
      case Blank => ""
      case Printing => "Printing..."
      case Printed => "Printed"
      case Failed => "Failed"
    }
  }

  /** The four texts are distinct, so the Status column tells the states apart. */
  lemma StatusTextDistinct(s: Status, t: Status)
    ensures s.Text() == t.Text() <==> s == t
  {
  }

  /** One grid row: the PDF File, Print? and Status cells. */
  datatype Row = Row(path: string, selected: bool, status: Status)

  /** The row a dropped file becomes. */
  function NewRow(path: string): Row {
    Row(path, true, Blank)
  }

  // ---------------------------------------------------------------------------
  // The ".pdf" test applied to dropped files

  /** Lower-casing of one character, restricted to ASCII. */
  function LowerChar(c: char): char {
    if 'A' <= c <= 'Z' then (c as int + ('a' as int - 'A' as int)) as char else c
  }

  function Lower(s: string): string {
    seq(|s|, i requires 0 <= i < |s| => LowerChar(s[i]))
  }

  predicate EndsWith(s: string, suffix: string) {
    |suffix| <= |s| && s[|s| - |suffix|..] == suffix
  }

  /** The filter of the drop handler: the lower-cased name ends in ".pdf". */
  predicate IsPdfPath(path: string) {
    EndsWith(Lower(path), ".pdf")
  }

  /** The test is a case-insensitive match of the last four characters. */
  lemma IsPdfPathIff(path: string)
    ensures IsPdfPath(path) <==>
      && |path| >= 4
      && path[|path| - 4] == '.'
      && (path[|path| - 3] == 'p' || path[|path| - 3] == 'P')
      && (path[|path| - 2] == 'd' || path[|path| - 2] == 'D')
      && (path[|path| - 1] == 'f' || path[|path| - 1] == 'F')
  {
    var n := |path|;
    if n >= 4 {
      var tail := Lower(path)[n - 4..];
      assert tail == [LowerChar(path[n - 4]), LowerChar(path[n - 3]), LowerChar(path[n - 2]), LowerChar(path[n - 1])];
    }
  }

  /** The rows a drop appends: one fresh row per PDF path, in the order dropped. */
  function PdfRows(files: seq<string>): (r: seq<Row>)
    ensures |r| <= |files|
    ensures forall k :: 0 <= k < |r| ==> r[k] == NewRow(r[k].path) && IsPdfPath(r[k].path)
  {
    if files == [] then []
    else
      var last := files[|files| - 1];
      PdfRows(files[..|files| - 1]) + (if IsPdfPath(last) then [NewRow(last)] else [])
  }

  /** Dropping two batches one after the other appends what dropping them together does. */
  lemma {:induction false} PdfRowsAppend(a: seq<string>, b: seq<string>)
    ensures PdfRows(a + b) == PdfRows(a) + PdfRows(b)
    decreases |b|
  {
    if b == [] {
      assert a + b == a;
    } else {
      var b' := b[..|b| - 1];
      assert (a + b)[..|a + b| - 1] == a + b';
      PdfRowsAppend(a, b');
    }
  }

  /** A dropped path gets a row exactly when it passes the filter. */
  lemma {:induction false} PdfRowsMembers(files: seq<string>, path: string)
    ensures NewRow(path) in PdfRows(files) <==> path in files && IsPdfPath(path)
    decreases |files|
  {
    if files != [] {
      var init := files[..|files| - 1];
      assert files == init + [files[|files| - 1]];
      PdfRowsMembers(init, path);
    }
  }

  /** Only rejected paths are lost: every path passes exactly when every one gets a row. */
  lemma {:induction false} PdfRowsAllPdf(files: seq<string>)
    ensures (forall k :: 0 <= k < |files| ==> IsPdfPath(files[k])) <==> |PdfRows(files)| == |files|
    decreases |files|
  {
    if files != [] {
      var init := files[..|files| - 1];
      PdfRowsAllPdf(init);
      assert forall k :: 0 <= k < |init| ==> init[k] == files[k];
    }
  }

  // ---------------------------------------------------------------------------
  // Counting and filtering by the Print? check box

  /** The number of rows whose check box is ticked, peeled from the end so that it follows the counting loop. */
  function SelectedCount(rows: seq<Row>): nat {
    if rows == [] then 0
    else SelectedCount(rows[..|rows| - 1]) + (if rows[|rows| - 1].selected then 1 else 0)
  }

  lemma {:induction false} SelectedCountZero(rows: seq<Row>)
    ensures SelectedCount(rows) == 0 <==> forall k :: 0 <= k < |rows| ==> !rows[k].selected
    decreases |rows|
  {
    if rows != [] {
      var init := rows[..|rows| - 1];
      SelectedCountZero(init);
      assert forall k :: 0 <= k < |init| ==> init[k] == rows[k];
    }
  }

  /** The rows that "Remove deselected" keeps: the ticked ones, in their order. */
  function Kept(rows: seq<Row>): (r: seq<Row>)
    ensures |r| <= |rows|
    ensures forall k :: 0 <= k < |r| ==> r[k].selected
  {
    if rows == [] then []
    else (if rows[0].selected then [rows[0]] else []) + Kept(rows[1..])
  }

  lemma {:induction false} KeptAppend(a: seq<Row>, b: seq<Row>)
    ensures Kept(a + b) == Kept(a) + Kept(b)
    decreases |a|
  {
    if a == [] {
      assert a + b == b;
    } else {
      assert (a + b)[1..] == a[1..] + b;
      KeptAppend(a[1..], b);
    }
  }

  /** One step of the backward removal loop: with the rows after i already
      filtered, removing row i when it is unticked leaves the rows from i on
      filtered. */
  lemma RemoveAtStep(original: seq<Row>, rows: seq<Row>, i: nat)
    requires i < |original|
    requires rows == original[..i + 1] + Kept(original[i + 1..])
    ensures i < |rows| && rows[i] == original[i]
    ensures (if rows[i].selected then rows else rows[..i] + rows[i + 1..]) ==
      original[..i] + Kept(original[i..])
  {
    assert original[i..][1..] == original[i + 1..];
    assert rows[..i] == original[..i];
    assert rows[i + 1..] == Kept(original[i + 1..]);
    assert original[..i + 1] == original[..i] + [original[i]];
  }

  /** A row survives exactly when it is in the list and ticked. */
  lemma {:induction false} KeptMembers(rows: seq<Row>, x: Row)
    ensures x in Kept(rows) <==> x in rows && x.selected
    decreases |rows|
  {
    if rows != [] {
      assert rows == [rows[0]] + rows[1..];
      KeptMembers(rows[1..], x);
    }
  }

  /** The list keeps one row per ticked row, so the count before the removal is its length after. */
  lemma {:induction false} KeptLength(rows: seq<Row>)
    ensures |Kept(rows)| == SelectedCount(rows)
    decreases |rows|
  {
    if rows != [] {
      var init := rows[..|rows| - 1];
      var last := rows[|rows| - 1];
      assert rows == init + [last];
      KeptAppend(init, [last]);
      assert [last][1..] == [];
      KeptLength(init);
    }
  }

  /** Removing again removes nothing, and nothing is removed from an all-ticked list. */
  lemma {:induction false} KeptFixpoint(rows: seq<Row>)
    ensures Kept(rows) == rows <==> forall k :: 0 <= k < |rows| ==> rows[k].selected
    decreases |rows|
  {
    if rows != [] {
      KeptFixpoint(rows[1..]);
      assert forall k :: 0 <= k < |rows[1..]| ==> rows[1..][k] == rows[k + 1];
    }
  }

  // ---------------------------------------------------------------------------
  // The skip loop of the driver

  /** Where the driver's loop stops when it starts at i: the first ticked row at
      or after i, or the end of the list (i itself when i is already past it). */
  function FirstSelectedFrom(rows: seq<Row>, i: nat): (k: nat)
    ensures i <= k
    ensures k < |rows| ==> rows[k].selected
    ensures forall j :: i <= j < k ==> j < |rows| && !rows[j].selected
    ensures k >= |rows| ==> k == if i <= |rows| then |rows| else i
    decreases |rows| - i
  {
    if i >= |rows| then i
    else if rows[i].selected then i
    else FirstSelectedFrom(rows, i + 1)
  }

  /** From the front, the loop finds a row exactly when some row is ticked. */
  lemma FirstSelectedFound(rows: seq<Row>)
    ensures FirstSelectedFrom(rows, 0) < |rows| <==> SelectedCount(rows) > 0
  {
    SelectedCountZero(rows);
  }
}
