/**
 * The order-table component's state and its handlers. Each handler reads the
 * state as it was when the table was last drawn and writes all of its slots
 * at once, so each method below is one atomic transition.
 */
module App {
  import opened Table

  datatype Option<T> = None | Some(value: T)

  class OrderTable {
    /** The processing-step numbers shown as column headers, 1 .. c. */
    var columns: seq<int>
    var rows: seq<Row>
    /** The label number of each row's order; row i is shown as Labels.Label(orderNames[i]). */
    var orderNames: seq<nat>
    /** Edit mode per row id; a missing key means the row is not being edited. */
    var isEditing: map<nat, bool>
    var showModal: bool
    /** The row waiting for the user to confirm its deletion. */
    var rowToDelete: Option<nat>
    /** The highest label number minted so far; the next added row gets the one after it. */
    var maxOrderNumber: nat

    /** What every handler keeps true. */
    ghost predicate Valid()
      reads this
    {
      && TableInvariant(|columns|, rows, orderNames, maxOrderNumber)
      && showModal == rowToDelete.Some?
    }

    /** The pending delete, if any, names an existing row (the delete handler needs this). */
    ghost predicate PendingInRange()
      reads this
    {
      rowToDelete.Some? ==> rowToDelete.value < |rows|
    }

    /** Every edit flag belongs to an existing row. */
    ghost predicate EditingAligned()
      reads this
    {
      EditKeysBelow(isEditing, |rows|)
    }

    /**
     * The text shown in the first cell of row i: the label prefix followed by
     * digits that read back as the row's label number.
     */
    function OrderName(i: nat): (s: string)
      reads this
      requires i < |orderNames|
      ensures |s| > |Labels.Prefix| && s[..|Labels.Prefix|] == Labels.Prefix
      ensures Labels.AllDigits(s[|Labels.Prefix|..]) && Labels.ValueOf(s[|Labels.Prefix|..]) == orderNames[i]
    {
      var n := orderNames[i];
      Labels.DecimalRoundTrip(n);
      assert Labels.Label(n)[|Labels.Prefix|..] == Labels.Decimal(n);
      Labels.Label(n)
    }

    /** The state before generation has finished: an empty table. */
    constructor ()
      ensures Valid() && PendingInRange() && EditingAligned()
      ensures columns == [] && rows == [] && orderNames == [] && isEditing == map[]
      ensures !showModal && rowToDelete == None && maxOrderNumber == 1
    {
      columns := [];
      rows := [];
      orderNames := [];
      isEditing := map[];
      showModal := false;
      rowToDelete := None;
      maxOrderNumber := 1;
    }

    /**
     * Installs a generated table: colCount columns and one row per entry of
     * cells (the drawn cell values, taken as inputs).
     */
    method GenerateTable(colCount: nat, cells: seq<seq<bool>>)
      requires Valid()
      requires forall i :: 0 <= i < |cells| ==> |cells[i]| == colCount
      modifies this
      ensures Valid()
      ensures |columns| == colCount && forall i :: 0 <= i < colCount ==> columns[i] == i + 1
      ensures |rows| == |cells| && forall i :: 0 <= i < |cells| ==> rows[i] == Row(i, cells[i])
      ensures |orderNames| == |cells| && forall i :: 0 <= i < |cells| ==> orderNames[i] == i + 1
      ensures maxOrderNumber == if |cells| > 0 then |cells| else 1
      ensures isEditing == old(isEditing) && showModal == old(showModal) && rowToDelete == old(rowToDelete)
    {
      columns := seq(colCount, i => i + 1);
      rows := seq(|cells|, i requires 0 <= i < |cells| => Row(i, cells[i]));
      orderNames := seq(|cells|, i => i + 1);
      maxOrderNumber := if |cells| > 0 then |cells| else 1;
    }

    /** Appends a row with the given cells and mints the next order label for it. */
    method AddRow(cells: seq<bool>)
      requires Valid()
      requires |cells| == |columns|
      modifies this
      ensures Valid()
      ensures rows == old(rows) + [Row(|old(rows)|, cells)]
      ensures orderNames == old(orderNames) + [old(maxOrderNumber) + 1]
      ensures maxOrderNumber == old(maxOrderNumber) + 1
      ensures forall i :: 0 <= i < |old(orderNames)| ==> old(orderNames)[i] < orderNames[|orderNames| - 1]
      ensures columns == old(columns) && isEditing == old(isEditing)
      ensures showModal == old(showModal) && rowToDelete == old(rowToDelete)
      ensures old(PendingInRange()) ==> PendingInRange()
      ensures old(EditingAligned()) ==> EditingAligned()
    {
      AddRowPreservesInvariant(|columns|, rows, orderNames, maxOrderNumber, cells);
      rows := rows + [Row(|rows|, cells)];
      orderNames := orderNames + [maxOrderNumber + 1];
      maxOrderNumber := maxOrderNumber + 1;
    }

    /** Flips cell c of row r, but only while row r is in edit mode. */
    method ToggleCellValue(r: nat, c: nat)
      requires Valid()
      modifies this
      ensures Valid()
      ensures !IsEditing(old(isEditing), r) ==> rows == old(rows)
      ensures IsEditing(old(isEditing), r) ==> rows == ToggleRows(old(rows), r, c)
      ensures forall i, j :: 0 <= i < |rows| && 0 <= j < |rows[i].cells| ==>
        |rows| == |old(rows)| && |rows[i].cells| == |old(rows)[i].cells| &&
        (rows[i].cells[j] != old(rows)[i].cells[j] <==> IsEditing(old(isEditing), r) && i == r && j == c)
      ensures columns == old(columns) && orderNames == old(orderNames) && isEditing == old(isEditing)
      ensures showModal == old(showModal) && rowToDelete == old(rowToDelete)
      ensures maxOrderNumber == old(maxOrderNumber)
    {
      if !IsEditing(isEditing, r) {
        return;
      }
      ToggleRowsAt(rows, r, c);
      rows := ToggleRows(rows, r, c);
    }

    /** Turns edit mode of row r on or off. */
    method ToggleEditing(r: nat)
      requires Valid()
      modifies this
      ensures Valid()
      ensures isEditing == ToggleFlag(old(isEditing), r)
      ensures IsEditing(isEditing, r) == !IsEditing(old(isEditing), r)
      ensures forall k :: k != r ==> IsEditing(isEditing, k) == IsEditing(old(isEditing), k)
      ensures columns == old(columns) && rows == old(rows) && orderNames == old(orderNames)
      ensures showModal == old(showModal) && rowToDelete == old(rowToDelete)
      ensures maxOrderNumber == old(maxOrderNumber)
      ensures old(EditingAligned()) && r < |rows| ==> EditingAligned()
    {
      isEditing := ToggleFlag(isEditing, r);
    }

    /** Asks for confirmation before deleting row index. */
    method ConfirmDeleteRow(index: nat)
      requires Valid()
      modifies this
      ensures Valid()
      ensures rowToDelete == Some(index) && showModal
      ensures PendingInRange() <==> index < |rows|
      ensures columns == old(columns) && rows == old(rows) && orderNames == old(orderNames)
      ensures isEditing == old(isEditing) && maxOrderNumber == old(maxOrderNumber)
    {
      rowToDelete := Some(index);
      showModal := true;
    }

    /** Dismisses the confirmation without deleting anything. */
    method CloseModal()
      requires Valid()
      modifies this
      ensures Valid() && PendingInRange()
      ensures rowToDelete == None && !showModal
      ensures columns == old(columns) && rows == old(rows) && orderNames == old(orderNames)
      ensures isEditing == old(isEditing) && maxOrderNumber == old(maxOrderNumber)
    {
      showModal := false;
      rowToDelete := None;
    }

    /**
     * Deletes the pending row, renumbers the rows after it, drops its label,
     * re-keys the edit flags and possibly lowers the order counter; does
     * nothing when no delete is pending.
     */
    method DeleteRow()
      requires Valid() && PendingInRange()
      modifies this
      ensures Valid() && PendingInRange()
      ensures rowToDelete == None && !showModal
      ensures old(rowToDelete).None? ==>
        columns == old(columns) && rows == old(rows) && orderNames == old(orderNames) &&
        isEditing == old(isEditing) && maxOrderNumber == old(maxOrderNumber)
      ensures old(rowToDelete).Some? ==> columns == old(columns)
      ensures old(rowToDelete).Some? ==> rows == DeleteRows(old(rows), old(rowToDelete).value)
      ensures old(rowToDelete).Some? ==> orderNames == RemoveAt(old(orderNames), old(rowToDelete).value)
      ensures old(rowToDelete).Some? ==> isEditing == Rekey(old(isEditing), old(rowToDelete).value)
      ensures old(rowToDelete).Some? ==>
        maxOrderNumber == NextMaxOrderNumber(old(rows)[old(rowToDelete).value].id, old(maxOrderNumber), rows)
      ensures old(EditingAligned()) ==> EditingAligned()
    {
      if rowToDelete.None? {
        return;
      }
      var t := rowToDelete.value;
      var deletedRow := rows[t];
      var newRows := DeleteRows(rows, t);
      var newOrderNames := RemoveAt(orderNames, t);
      var newMaxOrderNumber := NextMaxOrderNumber(deletedRow.id, maxOrderNumber, newRows);
      var newEditing := RekeyEditing(isEditing, t);

      assert TableInvariant(|columns|, newRows, newOrderNames, newMaxOrderNumber) by {
        DeletePreservesInvariant(|columns|, rows, orderNames, maxOrderNumber, t);
      }
      assert EditingAligned() ==> EditKeysBelow(newEditing, |newRows|) by {
        if EditingAligned() {
          RekeyKeepsKeysBelow(isEditing, |rows|, t);
        }
      }

      rows, orderNames, maxOrderNumber, isEditing := newRows, newOrderNames, newMaxOrderNumber, newEditing;
      showModal, rowToDelete := false, None;
    }
  }

  /** Any table state the handlers can reach keeps its labels pairwise distinct. */
  lemma ReachableLabelsDistinct(table: OrderTable)
    requires table.Valid()
    ensures forall i, j :: 0 <= i < j < |table.orderNames| ==> table.OrderName(i) != table.OrderName(j)
  {
    LabelsDistinct(table.orderNames);
  }

  /** Generating three columns and two rows, then adding a row. */
  method ScenarioGenerateAndAdd(newCells: seq<bool>)
    requires |newCells| == 3
  {
    var table := new OrderTable();
    table.GenerateTable(3, [[true, false, true], [false, false, false]]);
    assert table.columns == [1, 2, 3];
    assert table.orderNames == [1, 2] && table.maxOrderNumber == 2;

    table.AddRow(newCells);
    assert table.rows[2] == Row(2, newCells);
    assert table.orderNames == [1, 2, 3] && table.maxOrderNumber == 3;
  }

  /** A cell only flips while its row is in edit mode. */
  method ScenarioToggle() {
    var table := new OrderTable();
    table.GenerateTable(3, [[true, false, true], [false, false, false]]);
    table.ToggleCellValue(0, 1);
    assert table.rows[0].cells == [true, false, true];
    table.ToggleEditing(0);
    var second := table.rows[1];
    table.ToggleCellValue(0, 1);
    assert table.rows[0].cells[1] && table.rows[1] == second;
  }

  /** Deleting the first of three rows leaves two rows, drops the first label and keeps the counter. */
  method ScenarioDeleteFirst(a: seq<bool>, b: seq<bool>, c: seq<bool>)
    requires |a| == |b| == |c|
  {
    var table := new OrderTable();
    table.GenerateTable(|a|, [a, b, c]);
    table.ConfirmDeleteRow(0);
    table.DeleteRow();
    assert table.orderNames == [2, 3] && table.maxOrderNumber == 3;
    assert |table.rows| == 2 && table.rows[1].id == 1;
  }

  /** Deleting the first row moves the edit flag of row 1 to row 0. */
  method ScenarioDeleteMovesFlag(a: seq<bool>, b: seq<bool>)
    requires |a| == |b|
  {
    var table := new OrderTable();
    table.GenerateTable(|a|, [a, b]);
    table.ToggleEditing(1);
    var flagsBefore := table.isEditing;
    table.ConfirmDeleteRow(0);
    table.DeleteRow();
    assert IsEditing(table.isEditing, 0) by {
      RekeyAtDeleted(flagsBefore, 0);
    }
  }

  /** Deleting the only row, which is also the newest, brings the counter down to 1, not 0. */
  method ScenarioDeleteOnlyRow(a: seq<bool>) {
    var table := new OrderTable();
    table.GenerateTable(|a|, [a]);
    assert table.maxOrderNumber == 1;
    table.ConfirmDeleteRow(0);
    table.DeleteRow();
    assert table.rows == [] && table.orderNames == [];
    assert table.maxOrderNumber == 1;
  }

  /** Cancelling a delete leaves the table as it was, however often it is done. */
  method ScenarioCancel(a: seq<bool>) {
    var table := new OrderTable();
    table.GenerateTable(|a|, [a]);
    var before := table.rows;
    table.ConfirmDeleteRow(0);
    table.CloseModal();
    table.CloseModal();
    assert table.rowToDelete == None && !table.showModal && table.rows == before;
  }
}
