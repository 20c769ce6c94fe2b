/**
 * The pure transformations the order table's handlers apply to its state:
 * flipping a cell, toggling an edit flag, and the three steps of a delete
 * (filter the rows by id, renumber them, re-key the edit map), together with
 * the invariants that tie row ids, order labels and edit flags to positions.
 */
module Table {
  import Labels

  /** One order: its id (which is also its position) and one flag per processing step. */
  datatype Row = Row(id: nat, cells: seq<bool>)

  /** The rows carry the ids base, base + 1, ... in order. */
  predicate IdsFrom(rows: seq<Row>, base: nat) {
    forall i :: 0 <= i < |rows| ==> rows[i].id == base + i
  }

  /** Every row's id is its position. */
  predicate IdsArePositions(rows: seq<Row>) {
    IdsFrom(rows, 0)
  }

  /** Every row has exactly one cell per column. */
  predicate CellsWidth(rows: seq<Row>, width: nat) {
    forall i :: 0 <= i < |rows| ==> |rows[i].cells| == width
  }

  /** Label numbers strictly increase along the table. */
  predicate Increasing(s: seq<nat>) {
    forall i, j :: 0 <= i < j < |s| ==> s[i] < s[j]
  }

  /** Every label number lies in [1, maxOrderNumber]. */
  predicate LabelsBounded(s: seq<nat>, maxOrderNumber: nat) {
    forall i :: 0 <= i < |s| ==> 1 <= s[i] <= maxOrderNumber
  }

  /** Every key of the edit map names an existing row. */
  predicate EditKeysBelow(m: map<nat, bool>, n: nat) {
    forall k :: k in m ==> k < n
  }

  /** Every row id is below n. */
  predicate IdsBelow(rows: seq<Row>, n: nat) {
    forall i :: 0 <= i < |rows| ==> rows[i].id < n
  }

  /** Some row has the given id. */
  predicate HasId(rows: seq<Row>, id: nat) {
    exists i :: 0 <= i < |rows| && rows[i].id == id
  }

  function Max(a: int, b: int): int {
    if a < b then b else a
  }

  // ---------------------------------------------------------------- cells

  /** A row's cells with exactly the cell at column c negated. */
  function Flip(cells: seq<bool>, c: nat): (r: seq<bool>)
    ensures |r| == |cells|
    ensures forall j :: 0 <= j < |cells| ==> (r[j] != cells[j] <==> j == c)
  {
    seq(|cells|, j requires 0 <= j < |cells| => if j == c then !cells[j] else cells[j])
  }

  /** The rows after flipping cell c of every row whose id is r. */
  function ToggleRows(rows: seq<Row>, r: nat, c: nat): (result: seq<Row>)
    ensures |result| == |rows|
    ensures forall i :: 0 <= i < |rows| ==>
      result[i].id == rows[i].id && |result[i].cells| == |rows[i].cells|
    ensures forall i :: 0 <= i < |rows| && rows[i].id == r ==> result[i].cells == Flip(rows[i].cells, c)
    ensures forall i :: 0 <= i < |rows| && rows[i].id != r ==> result[i] == rows[i]
    ensures IdsArePositions(rows) ==> IdsArePositions(result)
    ensures forall w :: CellsWidth(rows, w) ==> CellsWidth(result, w)
  {
    seq(|rows|, i requires 0 <= i < |rows| =>
      if rows[i].id == r then rows[i].(cells := Flip(rows[i].cells, c)) else rows[i])
  }

  /** When ids are positions, toggling (r, c) changes cell c of row r and no other cell. */
  lemma ToggleRowsAt(rows: seq<Row>, r: nat, c: nat)
    requires IdsArePositions(rows)
    ensures forall i, j :: 0 <= i < |rows| && 0 <= j < |rows[i].cells| ==>
      (ToggleRows(rows, r, c)[i].cells[j] != rows[i].cells[j] <==> i == r && j == c)
  {
    var result := ToggleRows(rows, r, c);
    forall i, j | 0 <= i < |rows| && 0 <= j < |rows[i].cells|
      ensures result[i].cells[j] != rows[i].cells[j] <==> i == r && j == c
    {
      if i == r {
        assert result[i].cells == Flip(rows[i].cells, c);
      }
    }
  }

  // ---------------------------------------------------------------- edit flags

  /** Whether row r is in edit mode; a missing key means it is not. */
  function IsEditing(m: map<nat, bool>, r: nat): (b: bool)
    ensures r !in m ==> !b
    ensures r in m ==> b == m[r]
  {
    r in m && m[r]
  }

  /** The edit map after toggling row r's flag. */
  function ToggleFlag(m: map<nat, bool>, r: nat): (m': map<nat, bool>)
    ensures m'.Keys == m.Keys + {r}
    ensures IsEditing(m', r) == !IsEditing(m, r)
    ensures forall k :: k in m && k != r ==> m'[k] == m[k]
  {
    m[r := !IsEditing(m, r)]
  }

  /** Toggling a row twice restores whether every row is in edit mode. */
  lemma ToggleFlagTwice(m: map<nat, bool>, r: nat)
    ensures forall k :: IsEditing(ToggleFlag(ToggleFlag(m, r), r), k) == IsEditing(m, k)
  {
  }

  // ---------------------------------------------------------------- delete

  /** The rows whose id is not t, in their original order. */
  function FilterOutId(rows: seq<Row>, t: nat): (r: seq<Row>)
    ensures |r| <= |rows|
    ensures forall i :: 0 <= i < |r| ==> r[i].id != t && r[i] in rows
    ensures forall i :: 0 <= i < |rows| && rows[i].id != t ==> rows[i] in r
    ensures (exists i :: 0 <= i < |rows| && rows[i].id == t) ==> |r| < |rows|
  {
    if |rows| == 0 then []
    else (if rows[0].id == t then [] else [rows[0]]) + FilterOutId(rows[1..], t)
  }

  /** The rows with each id replaced by its position. */
  function Renumber(rows: seq<Row>): (r: seq<Row>)
    ensures |r| == |rows| && IdsArePositions(r)
    ensures forall i :: 0 <= i < |rows| ==> r[i].cells == rows[i].cells
  {
    seq(|rows|, i requires 0 <= i < |rows| => rows[i].(id := i))
  }

  /** The sequence without the element at index t (unchanged when t is past the end). */
  function RemoveAt<T>(s: seq<T>, t: nat): (r: seq<T>)
    ensures |r| == if t < |s| then |s| - 1 else |s|
    ensures forall i {:trigger r[i]} :: 0 <= i < |r| && i < t ==> r[i] == s[i]
    ensures forall i :: t <= i < |r| ==> r[i] == s[i + 1]
  {
    if t < |s| then s[..t] + s[t + 1..] else s
  }

  /** Removing a later element commutes with taking the head off. */
  lemma RemoveAtAfterHead<T>(s: seq<T>, k: nat)
    requires 0 < k < |s|
    ensures RemoveAt(s, k) == [s[0]] + RemoveAt(s[1..], k - 1)
  {
    assert RemoveAt(s, k)[1..] == RemoveAt(s[1..], k - 1);
  }

  /** Filtering out an id that no row has keeps every row. */
  lemma {:induction false} FilterOutAbsentId(rows: seq<Row>, t: nat)
    requires forall i :: 0 <= i < |rows| ==> rows[i].id != t
    ensures FilterOutId(rows, t) == rows
  {
    if |rows| > 0 {
      FilterOutAbsentId(rows[1..], t);
    }
  }

  /** When ids run base, base + 1, ..., filtering out id t removes exactly position t - base. */
  lemma {:induction false} FilterOutIdAt(rows: seq<Row>, base: nat, t: nat)
    requires IdsFrom(rows, base)
    requires base <= t < base + |rows|
    ensures FilterOutId(rows, t) == RemoveAt(rows, t - base)
  {
    if t == base {
      FilterOutAbsentId(rows[1..], t);
      assert RemoveAt(rows, 0) == rows[1..];
    } else {
      FilterOutIdAt(rows[1..], base + 1, t);
      RemoveAtAfterHead(rows, t - base);
    }
  }

  /** The rows after deleting the row with id t and renumbering the rest. */
  function DeleteRows(rows: seq<Row>, t: nat): (r: seq<Row>)
    ensures |r| <= |rows| && IdsArePositions(r)
    ensures forall w :: CellsWidth(rows, w) ==> CellsWidth(r, w)
  {
    Renumber(FilterOutId(rows, t))
  }

  /**
   * Deleting the row at position t removes it, keeps the other rows' cells in
   * their order, and gives every remaining row its new position as id.
   */
  lemma DeleteRowsCorrect(rows: seq<Row>, t: nat)
    requires IdsArePositions(rows)
    requires t < |rows|
    ensures |DeleteRows(rows, t)| == |rows| - 1
    ensures IdsArePositions(DeleteRows(rows, t))
    ensures forall i {:trigger DeleteRows(rows, t)[i]} :: 0 <= i < t ==> DeleteRows(rows, t)[i].cells == rows[i].cells
    ensures forall i :: t <= i < |rows| - 1 ==> DeleteRows(rows, t)[i].cells == rows[i + 1].cells
    ensures forall w :: CellsWidth(rows, w) ==> CellsWidth(DeleteRows(rows, t), w)
  {
    FilterOutIdAt(rows, 0, t);
  }

  /** The key a row other than t has after row t is deleted. */
  function Shift(k: nat, t: nat): nat {
    if k > t then k - 1 else k
  }

  /** The key a row had before row t was deleted, given its key after. */
  function Unshift(j: nat, t: nat): (k: nat)
    ensures k != t && Shift(k, t) == j
  {
    if j < t then j else j + 1
  }

  /** The edit map after deleting row t: t's entry is dropped and every other entry moves to its shifted key. */
  function Rekey(m: map<nat, bool>, t: nat): (m': map<nat, bool>)
    ensures forall k :: k in m && k != t ==> Shift(k, t) in m' && m'[Shift(k, t)] == m[k]
    ensures forall j :: j in m' ==> Unshift(j, t) in m
  {
    var keys := set k | k in m && k != t :: Shift(k, t);
    map j | j in keys :: m[Unshift(j, t)]
  }

  /** Re-keying after deleting row t keeps every entry below t under its own key. */
  lemma RekeyKeepsLower(m: map<nat, bool>, t: nat)
    ensures forall k :: k in m && k < t ==> k in Rekey(m, t) && Rekey(m, t)[k] == m[k]
  {
    forall k | k in m && k < t
      ensures k in Rekey(m, t) && Rekey(m, t)[k] == m[k]
    {
      assert Shift(k, t) == k;
    }
  }

  /** Re-keying after deleting row t moves every entry above t down by one, with its value. */
  lemma RekeyMovesDown(m: map<nat, bool>, t: nat)
    ensures forall k :: k in m && k > t ==> k - 1 in Rekey(m, t) && Rekey(m, t)[k - 1] == m[k]
  {
    forall k | k in m && k > t
      ensures k - 1 in Rekey(m, t) && Rekey(m, t)[k - 1] == m[k]
    {
      assert Shift(k, t) == k - 1;
    }
  }

  /** After deleting row t, t is a key again exactly when t + 1 was one, and it takes t + 1's value. */
  lemma RekeyAtDeleted(m: map<nat, bool>, t: nat)
    ensures t in Rekey(m, t) <==> t + 1 in m
    ensures t in Rekey(m, t) ==> Rekey(m, t)[t] == m[t + 1]
  {
    if t + 1 in m {
      assert Shift(t + 1, t) == t;
    }
    if t in Rekey(m, t) {
      assert Unshift(t, t) == t + 1;
    }
  }

  /** Every key after re-keying comes from a key other than t: the same key below t, the next key from t on. */
  lemma RekeyKeysFrom(m: map<nat, bool>, t: nat)
    ensures forall j :: j in Rekey(m, t) && j < t ==> j in m
    ensures forall j :: j in Rekey(m, t) && j >= t ==> j + 1 in m
  {
    var m' := Rekey(m, t);
    forall j | j in m'
      ensures if j < t then j in m else j + 1 in m
    {
      assert Unshift(j, t) in m;
    }
  }

  /** Re-keying after deleting an existing row keeps every key naming an existing row. */
  lemma RekeyKeepsKeysBelow(m: map<nat, bool>, n: nat, t: nat)
    requires EditKeysBelow(m, n)
    requires t < n
    ensures EditKeysBelow(Rekey(m, t), n - 1)
  {
    var m' := Rekey(m, t);
    forall j | j in m'
      ensures j < n - 1
    {
      assert Unshift(j, t) in m;
    }
  }

  /**
   * The edit-map update of a delete as the source builds it: the keys other
   * than t are visited one at a time and each entry is written into an
   * accumulator under its shifted key. Keys are visited in an arbitrary order;
   * the result does not depend on it.
   */
  method RekeyEditing(m: map<nat, bool>, t: nat) returns (acc: map<nat, bool>)
    ensures acc == Rekey(m, t)
  {
    acc := map[];
    var keys := m.Keys - {t};
    ghost var done: set<nat> := {};
    while keys != {}
      invariant keys !! done && keys + done == m.Keys - {t}
      invariant forall k :: k in done ==> Shift(k, t) in acc && acc[Shift(k, t)] == m[k]
      invariant forall j :: j in acc ==> Unshift(j, t) in done
      decreases keys
    {
      var k :| k in keys;
      acc := acc[Shift(k, t) := m[k]];
      keys := keys - {k};
      done := done + {k};
    }
    var expected := Rekey(m, t);
    forall j | j in expected
      ensures j in acc
    {
      assert Unshift(j, t) in done;
    }
  }

  /** The largest row id, or 0 when there is none or all are smaller. */
  function MaxIdOrZero(rows: seq<Row>): (r: nat)
    ensures forall i :: 0 <= i < |rows| ==> rows[i].id <= r
    ensures r == 0 || exists i :: 0 <= i < |rows| && rows[i].id == r
  {
    if |rows| == 0 then 0 else Max(MaxIdOrZero(rows[..|rows| - 1]), rows[|rows| - 1].id)
  }

  /**
   * The order counter after a delete: recomputed from the remaining ids when
   * the deleted row's id was maxOrderNumber - 1, otherwise kept.
   */
  function NextMaxOrderNumber(deletedId: nat, maxOrderNumber: nat, newRows: seq<Row>): nat {
    if deletedId == maxOrderNumber - 1 then MaxIdOrZero(newRows) + 1 else maxOrderNumber
  }

  /**
   * The counter after a delete is kept unless the deleted id was
   * maxOrderNumber - 1; then it is one above the largest remaining id, or 1
   * when no row is left.
   */
  lemma NextMaxAboveRemaining(deletedId: nat, maxOrderNumber: nat, newRows: seq<Row>)
    ensures deletedId != maxOrderNumber - 1 ==> NextMaxOrderNumber(deletedId, maxOrderNumber, newRows) == maxOrderNumber
    ensures deletedId == maxOrderNumber - 1 ==>
      var r := NextMaxOrderNumber(deletedId, maxOrderNumber, newRows);
      r >= 1 && IdsBelow(newRows, r) && (r == 1 || HasId(newRows, r - 1))
  {
  }

  /** Because the remaining ids are renumbered, the recomputed counter is the new row count (at least 1). */
  lemma NextMaxAfterDelete(rows: seq<Row>, t: nat, maxOrderNumber: nat)
    requires IdsArePositions(rows)
    requires t < |rows|
    ensures NextMaxOrderNumber(rows[t].id, maxOrderNumber, DeleteRows(rows, t))
      == if t == maxOrderNumber - 1 then Max(|rows| - 1, 1) else maxOrderNumber
  {
    DeleteRowsCorrect(rows, t);
    var r := DeleteRows(rows, t);
    if |r| > 0 {
      assert r[|r| - 1].id == |r| - 1;
    }
  }

  // ---------------------------------------------------------------- labels

  /** In an increasing sequence, the element at i is at least |s| - 1 - i below the last one. */
  lemma {:induction false} IncreasingGap(s: seq<nat>, i: nat)
    requires Increasing(s)
    requires i < |s|
    ensures s[i] + (|s| - 1 - i) <= s[|s| - 1]
    decreases |s| - i
  {
    if i < |s| - 1 {
      IncreasingGap(s, i + 1);
    }
  }

  /** In an increasing sequence, the element at i is at least i above the first one. */
  lemma {:induction false} IncreasingRise(s: seq<nat>, i: nat)
    requires Increasing(s)
    requires i < |s|
    ensures s[0] + i <= s[i]
  {
    if i > 0 {
      IncreasingRise(s, i - 1);
    }
  }

  /**
   * The counter is only recomputed when the labels are exactly 1 .. |s| and
   * the row deleted is the last one: a label at position maxOrderNumber - 1
   * forces every label below the counter to be taken.
   */
  lemma RecomputeOnlyWhenLabelsFull(s: seq<nat>, maxOrderNumber: nat, t: nat)
    requires Increasing(s) && LabelsBounded(s, maxOrderNumber)
    requires t < |s|
    requires t == maxOrderNumber - 1
    ensures t == |s| - 1
    ensures forall i :: 0 <= i < |s| ==> s[i] == i + 1
  {
    IncreasingGap(s, 0);
    forall i | 0 <= i < |s|
      ensures s[i] == i + 1
    {
      IncreasingGap(s, i);
      IncreasingRise(s, i);
    }
  }

  /**
   * Removing the label at t keeps the labels increasing, and they stay within
   * the counter as the delete handler updates it.
   */
  lemma DeleteKeepsLabelsBounded(s: seq<nat>, maxOrderNumber: nat, t: nat)
    requires Increasing(s) && LabelsBounded(s, maxOrderNumber)
    requires t < |s|
    ensures Increasing(RemoveAt(s, t))
    ensures LabelsBounded(RemoveAt(s, t), if t == maxOrderNumber - 1 then Max(|s| - 1, 1) else maxOrderNumber)
  {
    if t == maxOrderNumber - 1 {
      RecomputeOnlyWhenLabelsFull(s, maxOrderNumber, t);
    }
  }

  // ---------------------------------------------------------------- the table invariant

  /**
   * What holds of the table after every handler: ids are positions, every row
   * has one cell per column, there is one label per row, labels increase and
   * never exceed the order counter, and the counter is at least 1.
   */
  predicate TableInvariant(width: nat, rows: seq<Row>, names: seq<nat>, maxOrderNumber: nat) {
    && IdsArePositions(rows)
    && CellsWidth(rows, width)
    && |names| == |rows|
    && Increasing(names)
    && LabelsBounded(names, maxOrderNumber)
    && maxOrderNumber >= 1
  }

  /** Appending a row with id |rows| and the label after the counter, and advancing the counter, keeps the invariant. */
  lemma AddRowPreservesInvariant(width: nat, rows: seq<Row>, names: seq<nat>, maxOrderNumber: nat, cells: seq<bool>)
    requires TableInvariant(width, rows, names, maxOrderNumber)
    requires |cells| == width
    ensures TableInvariant(width, rows + [Row(|rows|, cells)], names + [maxOrderNumber + 1], maxOrderNumber + 1)
  {
  }

  /** The delete handler's three updates together keep the invariant. */
  lemma DeletePreservesInvariant(width: nat, rows: seq<Row>, names: seq<nat>, maxOrderNumber: nat, t: nat)
    requires TableInvariant(width, rows, names, maxOrderNumber)
    requires t < |rows|
    ensures TableInvariant(width, DeleteRows(rows, t), RemoveAt(names, t),
      NextMaxOrderNumber(rows[t].id, maxOrderNumber, DeleteRows(rows, t)))
  {
    DeleteRowsCorrect(rows, t);
    NextMaxAfterDelete(rows, t, maxOrderNumber);
    DeleteKeepsLabelsBounded(names, maxOrderNumber, t);
  }

  /** Increasing label numbers are rendered as pairwise distinct labels. */
  lemma LabelsDistinct(s: seq<nat>)
    requires Increasing(s)
    ensures forall i, j :: 0 <= i < j < |s| ==> Labels.Label(s[i]) != Labels.Label(s[j])
  {
    forall i, j | 0 <= i < j < |s|
      ensures Labels.Label(s[i]) != Labels.Label(s[j])
    {
      Labels.LabelInjective(s[i], s[j]);
    }
  }
}
