/** The missing-term collector (phylo_parser/main.py, lines 318-330): scan every row of
    the full table and every id column, and collect the label paired with each empty id.
    The table is the batch of records keyed by character id; its columns are the union
    of the rows' columns, and a row lacking a column reads "" there. */
module Missing {
  import opened Wrappers
  import opened Dicts
  import opened Statement
  import opened Rows

  /** `char_ls_dict`: the records of one file, keyed by character id. */
  type Table = Dict<Record>

  /** The rows of the full table, one per record. */
  function TableRows(tbl: Table): (rows: seq<Row>)
    ensures |rows| == |tbl|
    ensures forall i :: 0 <= i < |tbl| ==> rows[i] == FullRow(tbl[i].1)
  {
    seq(|tbl|, i requires 0 <= i < |tbl| => FullRow(tbl[i].1))
  }

  /** `final_df.columns`: every column some row has. */
  function Columns(rows: seq<Row>): set<Col> {
    set i, j | 0 <= i < |rows| && 0 <= j < |rows[i]| :: rows[i][j].0
  }

  /** A column the scan looks at. As written (line 321) that is a column whose name ends
      in "_ID"; with `states` the state id columns `state_ID_i` are looked at too. */
  predicate Scanned(c: Col, states: bool) {
    EndsWith(ColumnName(c), "_ID") || (states && c.StateIdCol?)
  }

  /** Lines 321-324: the cell of column c is empty and its label column exists. */
  predicate Flagged(row: Row, c: Col, cols: set<Col>, states: bool) {
    Scanned(c, states) && Cell(row, c) == "" && LabelColumn(c) in cols
  }

  /** The labels one row contributes from the columns in `done`. */
  function RowMissing(row: Row, done: set<Col>, cols: set<Col>, states: bool): set<string> {
    set c | c in done && Flagged(row, c, cols, states) :: Cell(row, LabelColumn(c))
  }

  /** The labels the rows contribute. */
  function MissingIn(rows: seq<Row>, cols: set<Col>, states: bool): set<string> {
    if rows == [] then {}
    else
      var n := |rows| - 1;
      MissingIn(rows[..n], cols, states) + RowMissing(rows[n], cols, cols, states)
  }

  /** The `missing` set of a table, as the scan leaves it. */
  function MissingTerms(tbl: Table, states: bool): set<string> {
    var rows := TableRows(tbl);
    MissingIn(rows, Columns(rows), states)
  }

  /** Row i reports x through column c. */
  predicate Reports(rows: seq<Row>, i: int, c: Col, x: string, states: bool)
    requires 0 <= i < |rows|
  {
    c in Columns(rows) && Flagged(rows[i], c, Columns(rows), states) && x == Cell(rows[i], LabelColumn(c))
  }

  /** Lines 318-324: scan the full table. */
  method CollectMissing(tbl: Table, states: bool) returns (missing: set<string>)
    ensures missing == MissingTerms(tbl, states)
  {
    var rows := TableRows(tbl);
    missing := ScanRows(rows, Columns(rows), states);
  }

  /** The loop over the rows of a table. */
  method ScanRows(rows: seq<Row>, cols: set<Col>, states: bool) returns (missing: set<string>)
    ensures missing == MissingIn(rows, cols, states)
  {
    missing := {};
    for i := 0 to |rows|
      invariant missing == MissingIn(rows[..i], cols, states)
    {
      missing := ScanRow(missing, rows[i], cols, states);
      MissingInStep(rows, i, cols, states);
    }
    assert rows[..|rows|] == rows;
  }

  /** The loop over the columns of one row, adding to the set built so far. */
  method ScanRow(before: set<string>, row: Row, cols: set<Col>, states: bool) returns (missing: set<string>)
    ensures missing == before + RowMissing(row, cols, cols, states)
  {
    missing := before;
    ghost var done: set<Col> := {};
    var todo := cols;
    while todo != {}
      invariant done + todo == cols
      invariant missing == before + RowMissing(row, done, cols, states)
      decreases |todo|
    {
      var c :| c in todo;
      RowMissingAdd(before, row, done, c, cols, states);
      if Scanned(c, states) && Cell(row, c) == "" {
        var labelCol := LabelColumn(c);
        if labelCol in cols {
          missing := missing + {Cell(row, labelCol)};
        }
      }
      MoveOne(done, todo, c);
      done := done + {c};
      todo := todo - {c};
    }
  }

  /** Moving one column from the ones left to the ones done keeps their union. */
  lemma MoveOne(done: set<Col>, todo: set<Col>, c: Col)
    requires c in todo
    ensures (done + {c}) + (todo - {c}) == done + todo
  {
  }

  /** One more column scanned. */
  lemma RowMissingStep(row: Row, done: set<Col>, c: Col, cols: set<Col>, states: bool)
    ensures RowMissing(row, done + {c}, cols, states) ==
      RowMissing(row, done, cols, states) + (if Flagged(row, c, cols, states) then {Cell(row, LabelColumn(c))} else {})
  {
  }

  // ---------------------------------------------------------------------------
  // What the collected set is
  // ---------------------------------------------------------------------------

  /** The collected set is exactly the labels some row reports through some scanned
      column: nothing else is added, and nothing reported is lost. */
  lemma MissingTermsIff(tbl: Table, states: bool, x: string)
    ensures var rows := TableRows(tbl);
      x in MissingTerms(tbl, states) <==> exists i, c :: 0 <= i < |rows| && Reports(rows, i, c, x, states)
  {
    var rows := TableRows(tbl);
    MissingInIff(rows, |rows|, states, x);
    assert rows[..|rows|] == rows;
  }

  lemma {:induction false} MissingInIff(rows: seq<Row>, k: nat, states: bool, x: string)
    requires k <= |rows|
    ensures x in MissingIn(rows[..k], Columns(rows), states) <==>
      exists i, c :: 0 <= i < k && Reports(rows, i, c, x, states)
  {
    if k > 0 {
      var j := k - 1;
      var cols := Columns(rows);
      MissingInIff(rows, j, states, x);
      MissingInStep(rows, j, cols, states);
      var prev := MissingIn(rows[..j], cols, states);
      var here := RowMissing(rows[j], cols, cols, states);
      if x in prev {
        var i, c :| 0 <= i < j && Reports(rows, i, c, x, states);
        assert 0 <= i < k && Reports(rows, i, c, x, states);
      } else if x in here {
        var c :| c in cols && Flagged(rows[j], c, cols, states) && x == Cell(rows[j], LabelColumn(c));
        assert Reports(rows, j, c, x, states);
      } else {
        forall i, c | 0 <= i < k ensures !Reports(rows, i, c, x, states) {
          if i == j && Reports(rows, j, c, x, states) {
            assert false;
          }
        }
      }
    }
  }

  /** One more column scanned, on top of what earlier rows reported. */
  lemma RowMissingAdd(before: set<string>, row: Row, done: set<Col>, c: Col, cols: set<Col>, states: bool)
    ensures before + RowMissing(row, done + {c}, cols, states) ==
      before + RowMissing(row, done, cols, states) +
      (if Flagged(row, c, cols, states) then {Cell(row, LabelColumn(c))} else {})
  {
    RowMissingStep(row, done, c, cols, states);
  }

  /** One more row scanned. */
  lemma MissingInStep(rows: seq<Row>, j: nat, cols: set<Col>, states: bool)
    requires j < |rows|
    ensures MissingIn(rows[..j + 1], cols, states) ==
      MissingIn(rows[..j], cols, states) + RowMissing(rows[j], cols, cols, states)
  {
    assert rows[..j + 1][..j] == rows[..j];
  }

  /** Row i of the table reports x through column c: the column is one of the row's own
      or another row's, it is scanned, its cell is "" and the label column holds x. */
  lemma ReportIn(tbl: Table, i: nat, c: Col, x: string, states: bool)
    requires i < |tbl| && Reports(TableRows(tbl), i, c, x, states)
    ensures x in MissingTerms(tbl, states)
  {
    MissingTermsIff(tbl, states, x);
  }

  /** Line 321 as written looks only at the organism, locator and Variable id columns:
      the state id columns are never scanned. */
  lemma ScannedAsWritten(c: Col)
    ensures Scanned(c, false) <==> c.OrgIdCol? || c.LocIdCol? || c.VarIdCol?
    ensures Scanned(c, true) <==> c.OrgIdCol? || c.LocIdCol? || c.VarIdCol? || c.StateIdCol?
  {
    EndsWithId(c);
  }

  /** Scanning the state columns too only adds labels. */
  lemma AsWrittenSubset(tbl: Table)
    ensures MissingTerms(tbl, false) <= MissingTerms(tbl, true)
  {
    forall x | x in MissingTerms(tbl, false) ensures x in MissingTerms(tbl, true) {
      MissingTermsIff(tbl, false, x);
      MissingTermsIff(tbl, true, x);
      var rows := TableRows(tbl);
      var i, c :| 0 <= i < |rows| && Reports(rows, i, c, x, false);
      assert Reports(rows, i, c, x, true);
    }
  }

  // ---------------------------------------------------------------------------
  // Which labels are reported
  // ---------------------------------------------------------------------------

  /** A column a row holds is a column of the table. */
  lemma RowColumn(rows: seq<Row>, i: nat, c: Col)
    requires i < |rows| && HasCol(rows[i], c)
    ensures c in Columns(rows)
  {
    var j :| 0 <= j < |rows[i]| && rows[i][j].0 == c;
  }

  /** A column of either part is a column of the concatenation. */
  lemma HasColAppend(a: Row, b: Row, c: Col)
    requires HasCol(a, c) || HasCol(b, c)
    ensures HasCol(a + b, c)
  {
    if HasCol(a, c) {
      var k :| 0 <= k < |a| && a[k].0 == c;
      assert (a + b)[k].0 == c;
    } else {
      var k :| 0 <= k < |b| && b[k].0 == c;
      assert (a + b)[|a| + k].0 == c;
    }
  }

  /** The full row is the char row, then the state row and the tag. */
  lemma FullRowParts(rec: Record)
    ensures FullRow(rec) == CharRow(rec.charPart) + (StateRow(rec.statePart) + [(TagCol, TagName(rec.tag))])
  {
  }

  /** State k's columns are in the full row of a record with k states or more. */
  lemma StateColumns(rec: Record, k: nat)
    requires 1 <= k <= |rec.statePart|
    ensures HasCol(FullRow(rec), StateIdCol(k)) && HasCol(FullRow(rec), StateLabelCol(k))
  {
    var sp := rec.statePart;
    var row := StateRow(sp);
    StateKeysAt(|sp|, k);
    assert row[3 * k - 3].0 == StateLabelCol(k) && row[3 * k - 2].0 == StateIdCol(k);
    var tag: Row := [(TagCol, TagName(rec.tag))];
    HasColAppend(row, tag, StateIdCol(k));
    HasColAppend(row, tag, StateLabelCol(k));
    FullRowParts(rec);
    HasColAppend(CharRow(rec.charPart), row + tag, StateIdCol(k));
    HasColAppend(CharRow(rec.charPart), row + tag, StateLabelCol(k));
  }

  /** With the state columns scanned, an unresolved state label is reported: state k of
      any record whose id is "" puts its label in the set. */
  lemma UnresolvedStateReported(tbl: Table, i: nat, k: nat)
    requires i < |tbl| && 1 <= k <= |tbl[i].1.statePart|
    requires tbl[i].1.statePart[k - 1].1.uri == ""
    ensures tbl[i].1.statePart[k - 1].1.name in MissingTerms(tbl, true)
  {
    var rec := tbl[i].1;
    StateRowCell(rec.statePart, k);
    FullRowCell(rec, StateIdCol(k));
    FullRowCell(rec, StateLabelCol(k));
    StateColumns(rec, k);
    ReportVia(tbl, i, i, StateIdCol(k), true);
  }

  /** A neomorphic record whose parse had no Variable list gets "Variable": "" appended
      last; the Variable columns then read "Variable" and "", so the scan as written
      reports the term "Variable". */
  lemma NeomorphicReportsVariable(tbl: Table, i: nat)
    requires i < |tbl| && |tbl[i].1.charPart| >= 2
    requires tbl[i].1.charPart[|tbl[i].1.charPart| - 1] == (VariableKey, Term(""))
    ensures VariableKey in MissingTerms(tbl, false)
  {
    var rec := tbl[i].1;
    VariableCells(rec);
    VariableColumns(rec);
    assert LabelColumn(VarIdCol) == VarLabelCol;
    ScannedAsWritten(VarIdCol);
    ReportVia(tbl, i, i, VarIdCol, false);
    assert Cell(FullRow(rec), LabelColumn(VarIdCol)) == VariableKey;
  }

  /** The Variable columns of a record ending in `"Variable": ""` read "Variable" and "". */
  lemma VariableCells(rec: Record)
    requires |rec.charPart| >= 2
    requires rec.charPart[|rec.charPart| - 1] == (VariableKey, Term(""))
    ensures Cell(FullRow(rec), VarLabelCol) == VariableKey && Cell(FullRow(rec), VarIdCol) == ""
  {
    CharRowVariable(rec.charPart);
    FullRowCell(rec, VarIdCol);
    FullRowCell(rec, VarLabelCol);
  }

  /** A record of two or more char entries has the Variable label and id columns. */
  lemma VariableColumns(rec: Record)
    requires |rec.charPart| >= 2
    ensures HasCol(FullRow(rec), VarLabelCol) && HasCol(FullRow(rec), VarIdCol)
  {
    var n := |rec.charPart|;
    var row := CharRow(rec.charPart);
    assert CharKeys(n)[2 * n - 2] == VarLabelCol && CharKeys(n)[2 * n - 1] == VarIdCol;
    assert row[2 * n - 2].0 == VarLabelCol && row[2 * n - 1].0 == VarIdCol;
    var tail := StateRow(rec.statePart) + [(TagCol, TagName(rec.tag))];
    FullRowParts(rec);
    HasColAppend(row, tail, VarLabelCol);
    HasColAppend(row, tail, VarIdCol);
  }

  /** Padding reports "": when one record has Locator_k and another has fewer locators,
      the other's padded Locator_k_ID cell is empty and its padded label "" is
      reported. */
  lemma PaddingReportsEmpty(tbl: Table, i: nat, j: nat, k: nat)
    requires i < |tbl| && j < |tbl|
    requires 1 <= k <= |tbl[i].1.charPart| - 2
    requires k > |tbl[j].1.charPart| - 2
    ensures "" in MissingTerms(tbl, false)
  {
    LocatorColumns(tbl[i].1, k);
    NoLocatorColumns(tbl[j].1, k);
    ScannedAsWritten(LocIdCol(k));
    ReportVia(tbl, i, j, LocIdCol(k), false);
  }

  /** Row j reports the label of an empty scanned column that row i holds with its label
      column. */
  lemma ReportVia(tbl: Table, i: nat, j: nat, c: Col, states: bool)
    requires i < |tbl| && j < |tbl|
    requires HasCol(FullRow(tbl[i].1), c) && HasCol(FullRow(tbl[i].1), LabelColumn(c))
    requires Scanned(c, states) && Cell(FullRow(tbl[j].1), c) == ""
    ensures Cell(FullRow(tbl[j].1), LabelColumn(c)) in MissingTerms(tbl, states)
  {
    var rows := TableRows(tbl);
    RowColumn(rows, i, c);
    RowColumn(rows, i, LabelColumn(c));
    ReportIn(tbl, j, c, Cell(rows[j], LabelColumn(c)), states);
  }

  /** A record with k locator positions has the Locator_k columns. */
  lemma LocatorColumns(rec: Record, k: nat)
    requires 1 <= k <= |rec.charPart| - 2
    ensures HasCol(FullRow(rec), LocIdCol(k)) && HasCol(FullRow(rec), LocLabelCol(k))
  {
    var cp := rec.charPart;
    var row := CharRow(cp);
    LocatorKeysAt(|cp| - 2, k);
    assert CharKeys(|cp|)[2 * k] == LocLabelCol(k) && CharKeys(|cp|)[2 * k + 1] == LocIdCol(k);
    assert row[2 * k].0 == LocLabelCol(k) && row[2 * k + 1].0 == LocIdCol(k);
    var tail := StateRow(rec.statePart) + [(TagCol, TagName(rec.tag))];
    FullRowParts(rec);
    HasColAppend(row, tail, LocIdCol(k));
    HasColAppend(row, tail, LocLabelCol(k));
  }

  /** A record with fewer locator positions lacks Locator_k; its cells read "". */
  lemma NoLocatorColumns(rec: Record, k: nat)
    requires k > |rec.charPart| - 2
    ensures Cell(FullRow(rec), LocIdCol(k)) == "" && Cell(FullRow(rec), LocLabelCol(k)) == ""
  {
    var cp := rec.charPart;
    var ks := CharKeys(|cp|);
    var m := if |cp| >= 2 then |cp| - 2 else 0;
    forall p | 0 <= p < |ks| ensures ks[p] != LocIdCol(k) && ks[p] != LocLabelCol(k) {
      if 2 <= p < 2 + 2 * m {
        assert ks[p] == LocatorKeys(m)[p - 2];
        LocatorKeysPos(m, p - 2);
      }
    }
    assert !HasCol(CharRow(cp), LocIdCol(k));
    assert !HasCol(CharRow(cp), LocLabelCol(k));
    FullRowCell(rec, LocIdCol(k));
    FullRowCell(rec, LocLabelCol(k));
  }

  // ---------------------------------------------------------------------------
  // The state columns as written
  // ---------------------------------------------------------------------------

  /** Every record has n >= 2 char entries and every one of them has a non-empty id. */
  predicate CharIdsResolved(tbl: Table, n: nat) {
    n >= 2 &&
    forall i :: 0 <= i < |tbl| ==>
      |tbl[i].1.charPart| == n &&
      forall p :: 0 <= p < n ==> EntryPair(tbl[i].1.charPart[p]).1 != ""
  }

  /** As written, a table whose char ids all resolve reports nothing, whatever its
      states: an unresolved state label never reaches the missing terms. */
  lemma AsWrittenIgnoresStates(tbl: Table, n: nat)
    requires CharIdsResolved(tbl, n)
    ensures MissingTerms(tbl, false) == {}
  {
    var rows := TableRows(tbl);
    forall x | x in MissingTerms(tbl, false) ensures false {
      MissingTermsIff(tbl, false, x);
      var j, c :| 0 <= j < |rows| && Reports(rows, j, c, x, false);
      var i := ColumnRow(rows, c);
      ScannedAsWritten(c);
      IdCellResolved(tbl, n, i, j, c);
    }
  }

  /** With the state columns scanned, the same table reports state k's label when it
      is unresolved. */
  lemma FixedReportsStates(tbl: Table, n: nat, i: nat, k: nat)
    requires CharIdsResolved(tbl, n)
    requires i < |tbl| && 1 <= k <= |tbl[i].1.statePart| && tbl[i].1.statePart[k - 1].1.uri == ""
    ensures tbl[i].1.statePart[k - 1].1.name !in MissingTerms(tbl, false)
    ensures tbl[i].1.statePart[k - 1].1.name in MissingTerms(tbl, true)
  {
    AsWrittenIgnoresStates(tbl, n);
    UnresolvedStateReported(tbl, i, k);
  }

  /** A column of the table comes from some row. */
  lemma ColumnRow(rows: seq<Row>, c: Col) returns (i: nat)
    requires c in Columns(rows)
    ensures i < |rows| && HasCol(rows[i], c)
  {
    var i', j :| 0 <= i' < |rows| && 0 <= j < |rows[i']| && rows[i'][j].0 == c;
    i := i';
  }

  /** An organism, locator or Variable id column that row i holds has a non-empty cell
      in row j. */
  lemma IdCellResolved(tbl: Table, n: nat, i: nat, j: nat, c: Col)
    requires CharIdsResolved(tbl, n) && i < |tbl| && j < |tbl|
    requires c.OrgIdCol? || c.LocIdCol? || c.VarIdCol?
    requires HasCol(FullRow(tbl[i].1), c)
    ensures Cell(FullRow(tbl[j].1), c) != ""
  {
    var ci := tbl[i].1.charPart;
    var cj := tbl[j].1.charPart;
    CharColumnInCharRow(tbl[i].1, c);
    FullRowCell(tbl[j].1, c);
    match c
    case OrgIdCol =>
      CharRowOrganism(cj);
    case VarIdCol =>
      CharRowVariable(cj);
    case LocIdCol(k) =>
      LocatorBound(ci, k);
      CharRowLocator(cj, k);
  }

  /** A char column of a full row is a column of its char row. */
  lemma CharColumnInCharRow(rec: Record, c: Col)
    requires IsCharCol(c) && HasCol(FullRow(rec), c)
    ensures HasCol(CharRow(rec.charPart), c)
  {
    var a: Row := CharRow(rec.charPart);
    var b: Row := StateRow(rec.statePart) + [(TagCol, TagName(rec.tag))];
    var ab: Row := a + b;
    FullRowParts(rec);
    RowKinds(rec);
    var q: int :| 0 <= q < |ab| && ab[q].0 == c;
    forall r | 0 <= r < |b| ensures !IsCharCol(b[r].0) {
      if r < |StateRow(rec.statePart)| {
        assert b[r] == StateRow(rec.statePart)[r];
      }
    }
    assert q < |a|;
    assert ab[q] == a[q];
  }

  /** A char row holds Locator_k only for 1 <= k <= n - 2. */
  lemma LocatorBound(cp: Dict<CharValue>, k: nat)
    requires |cp| >= 2 && HasCol(CharRow(cp), LocIdCol(k))
    ensures 1 <= k <= |cp| - 2
  {
    var row := CharRow(cp);
    var q :| 0 <= q < |row| && row[q].0 == LocIdCol(k);
    assert CharKeys(|cp|)[q] == LocIdCol(k);
    LocatorKeyBound(|cp|, q);
  }

  /** The keys of n >= 2 entries hold a locator id only for locators 1..n-2. */
  lemma LocatorKeyBound(n: nat, q: nat)
    requires n >= 2 && q < |CharKeys(n)| && CharKeys(n)[q].LocIdCol?
    ensures 1 <= CharKeys(n)[q].i <= n - 2
  {
    var m := n - 2;
    assert 2 <= q < 2 + 2 * m;
    assert CharKeys(n)[q] == LocatorKeys(m)[q - 2];
    LocatorKeysPos(m, q - 2);
  }
}
