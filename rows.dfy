/** The flat rows built from a parsed statement: the char-part row (keys and values
    zipped by position), the state-part row (label, id, token triples) and the full row
    with the tag (phylo_parser/main.py, lines 194-234). Rows are association lists from
    columns to cell text; a cell missing from a row reads as "" once the batch table is
    padded. */
module Rows {
  import opened Wrappers
  import opened Text
  import opened Dicts
  import opened Statement

  /** The columns of the tables; indices count from 1 as in the column names. */
  datatype Col =
    | OrgLabelCol | OrgIdCol
    | LocLabelCol(i: nat) | LocIdCol(i: nat)
    | VarLabelCol | VarIdCol | VarCommentCol
    | StateLabelCol(i: nat) | StateIdCol(i: nat) | TokenCol(i: nat)
    | TagCol

  /** The decimal text of n, as an f-string writes it. */
  function NatStr(n: nat): (s: string)
    ensures |s| > 0 && IsDigit(s[|s| - 1])
  {
    var d := ['0' + (n % 10) as char];
    if n < 10 then d else NatStr(n / 10) + d
  }

  /** The column names of the CSV headers. */
  function ColumnName(c: Col): string {
    match c
    case OrgLabelCol => "Organism_label"
    case OrgIdCol => "Organism_ID"
    case LocLabelCol(i) => "Locator_" + NatStr(i) + "_label"
    case LocIdCol(i) => "Locator_" + NatStr(i) + "_ID"
    case VarLabelCol => "Variable_label"
    case VarIdCol => "Variable_ID"
    case VarCommentCol => "Variable_comment"
    case StateLabelCol(i) => "state_label_" + NatStr(i)
    case StateIdCol(i) => "state_ID_" + NatStr(i)
    case TokenCol(i) => "token_" + NatStr(i)
    case TagCol => "tag"
  }

  /** `s.endswith(suffix)` */
  predicate EndsWith(s: string, suffix: string) {
    |suffix| <= |s| && s[|s| - |suffix|..] == suffix
  }

  /** The columns whose name ends with "_ID" are the organism, locator and Variable id
      columns; the state id columns `state_ID_i` end with their index instead. */
  lemma EndsWithId(c: Col)
    ensures EndsWith(ColumnName(c), "_ID") <==> c.OrgIdCol? || c.LocIdCol? || c.VarIdCol?
  {
    var name := ColumnName(c);
    if c.LocIdCol? {
      var pre := "Locator_" + NatStr(c.i);
      assert name == pre + "_ID";
      assert name[|name| - 3..] == "_ID";
    } else if !(c.OrgIdCol? || c.VarIdCol?) {
      LastCharNotD(c);
    }
  }

  lemma LastCharNotD(c: Col)
    requires !(c.OrgIdCol? || c.LocIdCol? || c.VarIdCol?)
    ensures |ColumnName(c)| > 0 && ColumnName(c)[|ColumnName(c)| - 1] != 'D'
  {
    var name := ColumnName(c);
    match c
    case StateLabelCol(i) => assert name[|name| - 1] == NatStr(i)[|NatStr(i)| - 1];
    case StateIdCol(i) => assert name[|name| - 1] == NatStr(i)[|NatStr(i)| - 1];
    case TokenCol(i) => assert name[|name| - 1] == NatStr(i)[|NatStr(i)| - 1];
    case LocLabelCol(i) => assert name == "Locator_" + NatStr(i) + "_label";
    case _ =>
  }

  /** The label column paired with an id column: `col.replace("_ID", "_label")`. */
  function LabelColumn(c: Col): Col {
    match c
    case OrgIdCol => OrgLabelCol
    case LocIdCol(i) => LocLabelCol(i)
    case VarIdCol => VarLabelCol
    case StateIdCol(i) => StateLabelCol(i)
    case _ => c
  }

  type Row = seq<(Col, string)>

  predicate DistinctCols(row: Row) {
    forall i, j :: 0 <= i < j < |row| ==> row[i].0 != row[j].0
  }

  /** The position of the first cell of column c at or after `from`, or -1. */
  function ColIndex(row: Row, c: Col, from: nat): (k: int)
    requires from <= |row|
    ensures k == -1 || from <= k < |row|
    ensures k >= 0 ==> row[k].0 == c && forall j :: from <= j < k ==> row[j].0 != c
    ensures k < 0 ==> forall j :: from <= j < |row| ==> row[j].0 != c
    decreases |row| - from
  {
    if from == |row| then -1
    else if row[from].0 == c then from
    else ColIndex(row, c, from + 1)
  }

  lemma ColIndexUnique(row: Row, c: Col, k: int)
    requires -1 <= k < |row|
    requires k >= 0 ==> row[k].0 == c && forall j :: 0 <= j < k ==> row[j].0 != c
    requires k < 0 ==> forall j :: 0 <= j < |row| ==> row[j].0 != c
    ensures ColIndex(row, c, 0) == k
  {
    ColIndexFrom(row, c, 0, k);
  }

  lemma {:induction false} ColIndexFrom(row: Row, c: Col, from: nat, k: int)
    requires from <= |row| && (k == -1 || from <= k < |row|)
    requires k >= 0 ==> row[k].0 == c && forall j :: from <= j < k ==> row[j].0 != c
    requires k < 0 ==> forall j :: from <= j < |row| ==> row[j].0 != c
    ensures ColIndex(row, c, from) == k
    decreases |row| - from
  {
    if from < |row| && row[from].0 != c {
      ColIndexFrom(row, c, from + 1, k);
    }
  }

  predicate HasCol(row: Row, c: Col) {
    exists i :: 0 <= i < |row| && row[i].0 == c
  }

  /** The cell of a padded table: the row's value in column c, or "" (`fillna("")`)
      when the row has no such column. */
  function Cell(row: Row, c: Col): (v: string)
    ensures !HasCol(row, c) ==> v == ""
  {
    var k := ColIndex(row, c, 0);
    if k < 0 then "" else row[k].1
  }

  /** In a row with distinct columns, a column's cell is the value stored with it. */
  lemma CellAt(row: Row, i: nat)
    requires DistinctCols(row) && i < |row|
    ensures Cell(row, row[i].0) == row[i].1
  {
    ColIndexUnique(row, row[i].0, i);
  }

  /** `dict(zip(keys, vals))` for distinct keys: pairs by position, as many as the
      shorter list has. */
  function Zip(keys: seq<Col>, vals: seq<string>): (row: Row)
    ensures |row| == if |keys| <= |vals| then |keys| else |vals|
    ensures forall i :: 0 <= i < |row| ==> row[i] == (keys[i], vals[i])
  {
    var n := if |keys| <= |vals| then |keys| else |vals|;
    seq(n, i requires 0 <= i < n => (keys[i], vals[i]))
  }

  // ---------------------------------------------------------------------------
  // Char-part row
  // ---------------------------------------------------------------------------

  /** Where a locator column sits among the locator keys. */
  function LocPos(c: Col): int
    requires c.LocLabelCol? || c.LocIdCol?
  {
    if c.LocLabelCol? then 2 * c.i - 2 else 2 * c.i - 1
  }

  /** The locator columns Locator_1_label, Locator_1_ID, ..., Locator_m_ID. */
  function LocatorKeys(m: nat): (ks: seq<Col>)
    ensures |ks| == 2 * m
  {
    if m == 0 then [] else LocatorKeys(m - 1) + [LocLabelCol(m), LocIdCol(m)]
  }

  /** Locator i sits at positions 2i-2 and 2i-1. */
  lemma {:induction false} LocatorKeysAt(m: nat, i: nat)
    requires 1 <= i <= m
    ensures LocatorKeys(m)[2 * i - 2] == LocLabelCol(i) && LocatorKeys(m)[2 * i - 1] == LocIdCol(i)
  {
    if i < m {
      LocatorKeysAt(m - 1, i);
    }
  }

  /** Every locator key names a locator column 1..m, and its position is LocPos. */
  lemma {:induction false} LocatorKeysPos(m: nat, p: nat)
    requires p < 2 * m
    ensures var c := LocatorKeys(m)[p];
      (c.LocLabelCol? || c.LocIdCol?) && 1 <= c.i <= m && LocPos(c) == p
  {
    if p < 2 * m - 2 {
      LocatorKeysPos(m - 1, p);
    }
  }

  /** The keys for a char part of n entries: `loc_c = n - 2` locator pairs between the
      organism pair and the three Variable columns. */
  function CharKeys(n: nat): (ks: seq<Col>)
    ensures |ks| == if n >= 2 then 2 * n + 1 else 5
  {
    [OrgLabelCol, OrgIdCol] + LocatorKeys(if n >= 2 then n - 2 else 0)
      + [VarLabelCol, VarIdCol, VarCommentCol]
  }

  /** The two values an entry contributes: the label and id of the Variable list, or
      the key and its value. */
  function EntryPair(e: (string, CharValue)): (string, string) {
    if e.1.Var? then (e.1.name, e.1.uri) else (e.0, e.1.uri)
  }

  /** The values the loop over the char part accumulates, two per entry. */
  function EntryCells(cp: Dict<CharValue>): (vs: seq<string>)
    ensures |vs| == 2 * |cp|
    ensures forall i :: 0 <= i < |cp| ==>
      vs[2 * i] == EntryPair(cp[i]).0 && vs[2 * i + 1] == EntryPair(cp[i]).1
  {
    if cp == [] then []
    else
      var n := |cp| - 1;
      var p := EntryPair(cp[n]);
      var vs := EntryCells(cp[..n]);
      assert forall i :: 0 <= i < n ==> cp[..n][i] == cp[i];
      vs + [p.0, p.1]
  }

  /** The comment of the Variable entry when it holds a list, else "". */
  function VariableComment(cp: Dict<CharValue>): string {
    var v := Get(cp, VariableKey);
    if v.Some? && v.value.Var? then v.value.comment else ""
  }

  /** The char-part row with the comment taken from the Variable entry. */
  function CharRow(cp: Dict<CharValue>): Row {
    Zip(CharKeys(|cp|), EntryCells(cp) + [VariableComment(cp)])
  }

  /** Lines 194-212: the loops that build the keys and the values of one char row; the
      comment is the Variable entry's own (see CommentAsWritten). */
  method BuildCharRow(cp: Dict<CharValue>) returns (row: Row)
    requires ListsUnderVariable(cp)
    ensures row == CharRow(cp)
  {
    var locators := if |cp| >= 2 then |cp| - 2 else 0;  // range(1, loc_c + 1) is empty below 1
    var keys := [OrgLabelCol, OrgIdCol];
    for i := 1 to locators + 1
      invariant keys == [OrgLabelCol, OrgIdCol] + LocatorKeys(i - 1)
    {
      keys := keys + [LocLabelCol(i), LocIdCol(i)];
    }
    keys := keys + [VarLabelCol, VarIdCol, VarCommentCol];
    var vals := [];
    for i := 0 to |cp|
      invariant vals == EntryCells(cp[..i])
    {
      var (k, v) := cp[i];
      if k == VariableKey && v.Var? {
        vals := vals + [v.name, v.uri];
      } else {
        vals := vals + [k, v.uri];
      }
      assert cp[..i + 1][..i] == cp[..i];
    }
    assert cp[..|cp|] == cp;
    vals := vals + [VariableComment(cp)];
    row := Zip(keys, vals);
  }

  /** A char row has one cell per value: two per entry and the comment. */
  lemma CharRowLength(cp: Dict<CharValue>)
    ensures |CharRow(cp)| == 2 * |cp| + 1
  {
  }

  lemma CharKeysDistinct(n: nat)
    ensures forall i, j :: 0 <= i < j < |CharKeys(n)| ==> CharKeys(n)[i] != CharKeys(n)[j]
  {
    var ks := CharKeys(n);
    var m := if n >= 2 then n - 2 else 0;
    forall i, j | 0 <= i < j < |ks| ensures ks[i] != ks[j] {
      if 2 <= i && j < 2 + 2 * m {
        assert ks[i] == LocatorKeys(m)[i - 2] && ks[j] == LocatorKeys(m)[j - 2];
        LocatorKeysPos(m, i - 2);
        LocatorKeysPos(m, j - 2);
      } else if 2 <= i < 2 + 2 * m {
        assert ks[i] == LocatorKeys(m)[i - 2];
        LocatorKeysPos(m, i - 2);
      } else if 2 <= j < 2 + 2 * m {
        assert ks[j] == LocatorKeys(m)[j - 2];
        LocatorKeysPos(m, j - 2);
      }
    }
  }

  lemma CharRowDistinct(cp: Dict<CharValue>)
    ensures DistinctCols(CharRow(cp))
  {
    CharKeysDistinct(|cp|);
  }

  /** The organism columns hold the first entry: its key, or the Variable label and id
      when the Variable list comes first. */
  lemma CharRowOrganism(cp: Dict<CharValue>)
    requires |cp| >= 1
    ensures Cell(CharRow(cp), OrgLabelCol) == EntryPair(cp[0]).0
    ensures Cell(CharRow(cp), OrgIdCol) == EntryPair(cp[0]).1
  {
    var row := CharRow(cp);
    CharRowDistinct(cp);
    CellAt(row, 0);
    CellAt(row, 1);
  }

  /** Keys and values pair up by position: Locator_i holds the entry at position i,
      whatever it is. */
  lemma CharRowLocator(cp: Dict<CharValue>, i: nat)
    requires 1 <= i <= |cp| - 2
    ensures Cell(CharRow(cp), LocLabelCol(i)) == EntryPair(cp[i]).0
    ensures Cell(CharRow(cp), LocIdCol(i)) == EntryPair(cp[i]).1
  {
    var row := CharRow(cp);
    var ks := CharKeys(|cp|);
    CharRowDistinct(cp);
    LocatorKeysAt(|cp| - 2, i);
    assert ks[2 * i] == LocatorKeys(|cp| - 2)[2 * i - 2] == LocLabelCol(i);
    assert ks[2 * i + 1] == LocatorKeys(|cp| - 2)[2 * i - 1] == LocIdCol(i);
    CellAt(row, 2 * i);
    CellAt(row, 2 * i + 1);
  }

  /** The Variable label and id columns hold the LAST entry, whether or not it is the
      Variable: a char part without "Variable" has its last locator there. The comment
      column holds the Variable entry's comment. */
  lemma CharRowVariable(cp: Dict<CharValue>)
    requires |cp| >= 2
    ensures Cell(CharRow(cp), VarLabelCol) == EntryPair(cp[|cp| - 1]).0
    ensures Cell(CharRow(cp), VarIdCol) == EntryPair(cp[|cp| - 1]).1
    ensures Cell(CharRow(cp), VarCommentCol) == VariableComment(cp)
  {
    var row := CharRow(cp);
    var n := |cp|;
    var ks := CharKeys(n);
    CharRowDistinct(cp);
    assert ks[2 * n - 2] == VarLabelCol && ks[2 * n - 1] == VarIdCol && ks[2 * n] == VarCommentCol;
    CellAt(row, 2 * n - 2);
    CellAt(row, 2 * n - 1);
    CellAt(row, 2 * n);
  }

  /** With a single entry the keys outnumber the values: the row stops after three
      cells, and the comment lands in Variable_label. */
  lemma CharRowSingle(cp: Dict<CharValue>)
    requires |cp| == 1
    ensures CharRow(cp) ==
      [(OrgLabelCol, EntryPair(cp[0]).0), (OrgIdCol, EntryPair(cp[0]).1),
       (VarLabelCol, VariableComment(cp))]
  {
  }

  // ---------------------------------------------------------------------------
  // The comment as written
  // ---------------------------------------------------------------------------

  /** Python's IndexError, raised by `v[2]` on a string of fewer than three characters. */
  datatype IndexError = IndexError

  /** Line 209 as written: `v` is the loop variable left over from the values loop,
      so the comment is read from the LAST entry. A list gives its comment; a string id
      gives its third character, or raises IndexError when it is shorter. */
  function CommentAsWritten(cp: Dict<CharValue>): (r: Result<string, IndexError>)
    ensures r.Failure? ==> |cp| > 0 && cp[|cp| - 1].1.Term? && |cp[|cp| - 1].1.uri| <= 2
  {
    var v := Get(cp, VariableKey);
    if v.Some? && v.value.Var? then
      var last := cp[|cp| - 1].1;
      if last.Var? then Success(last.comment)
      else if |last.uri| > 2 then Success([last.uri[2]])
      else Failure(IndexError)
    else Success("")
  }

  /** When the Variable list is the last entry, the leftover variable is that list and
      the code reads the right comment. */
  lemma CommentAsWrittenAgrees(cp: Dict<CharValue>)
    requires UniqueKeys(cp) && |cp| > 0
    requires cp[|cp| - 1].0 == VariableKey || Get(cp, VariableKey).None? ||
      Get(cp, VariableKey).value.Term?
    ensures CommentAsWritten(cp) == Success(VariableComment(cp))
  {
    var n := |cp| - 1;
    var v := Get(cp, VariableKey);
    if v.Some? && v.value.Var? && cp[n].0 == VariableKey {
      assert Keys(cp)[n] == VariableKey;
      assert cp[n] == (VariableKey, v.value);
    }
  }

  /** When the Variable list, at position j, is not the last entry, the code reads the
      last entry instead: the comment becomes the third character of its id, or the file
      fails on an id shorter than three characters (an unresolved term has the id ""). */
  lemma CommentAsWrittenWrong(cp: Dict<CharValue>, j: nat, name: string, uri: string,
                              comment: string, key: string, id: string)
    requires UniqueKeys(cp) && j < |cp| - 1 && cp[j] == (VariableKey, Var(name, uri, comment))
    requires cp[|cp| - 1] == (key, Term(id))
    ensures VariableComment(cp) == comment
    ensures |id| <= 2 ==> CommentAsWritten(cp) == Failure(IndexError)
    ensures |id| > 2 ==> CommentAsWritten(cp) == Success([id[2]])
  {
    assert Keys(cp)[j] == VariableKey;
    IndexOfUnique(Keys(cp), VariableKey, j);
  }

  // ---------------------------------------------------------------------------
  // State-part row
  // ---------------------------------------------------------------------------

  predicate IsStateCol(c: Col) {
    c.StateLabelCol? || c.StateIdCol? || c.TokenCol?
  }

  /** Where a state column sits among the state keys. */
  function StatePos(c: Col): int
    requires IsStateCol(c)
  {
    if c.StateLabelCol? then 3 * c.i - 3 else if c.StateIdCol? then 3 * c.i - 2 else 3 * c.i - 1
  }

  /** The columns state_label_i, state_ID_i, token_i for i = 1..m. */
  function StateKeys(m: nat): (ks: seq<Col>)
    ensures |ks| == 3 * m
  {
    if m == 0 then [] else StateKeys(m - 1) + [StateLabelCol(m), StateIdCol(m), TokenCol(m)]
  }

  /** State i sits at positions 3i-3, 3i-2 and 3i-1. */
  lemma {:induction false} StateKeysAt(m: nat, i: nat)
    requires 1 <= i <= m
    ensures StateKeys(m)[3 * i - 3] == StateLabelCol(i)
    ensures StateKeys(m)[3 * i - 2] == StateIdCol(i)
    ensures StateKeys(m)[3 * i - 1] == TokenCol(i)
  {
    if i < m {
      StateKeysAt(m - 1, i);
    }
  }

  /** Every state key names a state column 1..m, and its position is StatePos. */
  lemma {:induction false} StateKeysPos(m: nat, p: nat)
    requires p < 3 * m
    ensures var c := StateKeys(m)[p]; IsStateCol(c) && 1 <= c.i <= m && StatePos(c) == p
  {
    if p < 3 * m - 3 {
      StateKeysPos(m - 1, p);
    }
  }

  /** The flat list `lst`: label, id and token of each state, in order. */
  function StateCells(sp: Dict<StateValue>): (vs: seq<string>)
    ensures |vs| == 3 * |sp|
    ensures forall i :: 0 <= i < |sp| ==>
      vs[3 * i] == sp[i].1.name && vs[3 * i + 1] == sp[i].1.uri && vs[3 * i + 2] == sp[i].0
  {
    if sp == [] then []
    else
      var n := |sp| - 1;
      var vs := StateCells(sp[..n]);
      assert forall i :: 0 <= i < n ==> sp[..n][i] == sp[i];
      vs + [sp[n].1.name, sp[n].1.uri, sp[n].0]
  }

  function StateRow(sp: Dict<StateValue>): Row {
    Zip(StateKeys(|sp|), StateCells(sp))
  }

  /** Lines 219-226: the loop that builds `lst` and the keys of one state row. */
  method BuildStateRow(sp: Dict<StateValue>) returns (row: Row)
    ensures row == StateRow(sp)
  {
    var lst := [];
    for i := 0 to |sp|
      invariant lst == StateCells(sp[..i])
    {
      var (token, state) := sp[i];
      lst := lst + [state.name, state.uri, token];
      assert sp[..i + 1][..i] == sp[..i];
    }
    assert sp[..|sp|] == sp;
    var keys := [];
    for i := 1 to |lst| / 3 + 1
      invariant keys == StateKeys(i - 1)
    {
      keys := keys + [StateLabelCol(i), StateIdCol(i), TokenCol(i)];
    }
    row := Zip(keys, lst);
  }

  lemma StateRowDistinct(sp: Dict<StateValue>)
    ensures DistinctCols(StateRow(sp))
  {
    var ks := StateKeys(|sp|);
    forall i, j | 0 <= i < j < |ks| ensures ks[i] != ks[j] {
      StateKeysPos(|sp|, i);
      StateKeysPos(|sp|, j);
    }
  }

  /** The state row is a faithful index of the state part: column i of each kind holds
      the i-th state's label, id and token. */
  lemma StateRowCell(sp: Dict<StateValue>, i: nat)
    requires 1 <= i <= |sp|
    ensures Cell(StateRow(sp), StateLabelCol(i)) == sp[i - 1].1.name
    ensures Cell(StateRow(sp), StateIdCol(i)) == sp[i - 1].1.uri
    ensures Cell(StateRow(sp), TokenCol(i)) == sp[i - 1].0
  {
    var row := StateRow(sp);
    var ks := StateKeys(|sp|);
    var vs := StateCells(sp);
    var k := 3 * (i - 1);
    StateKeysAt(|sp|, i);
    assert |row| == 3 * |sp|;
    assert ks[k] == StateLabelCol(i) && ks[k + 1] == StateIdCol(i) && ks[k + 2] == TokenCol(i);
    assert vs[k] == sp[i - 1].1.name && vs[k + 1] == sp[i - 1].1.uri && vs[k + 2] == sp[i - 1].0;
    assert row[k] == (ks[k], vs[k]) && row[k + 1] == (ks[k + 1], vs[k + 1]) && row[k + 2] == (ks[k + 2], vs[k + 2]);
    StateRowDistinct(sp);
    CellAt(row, k);
    CellAt(row, k + 1);
    CellAt(row, k + 2);
  }

  /** Past the last state, the padded cells read "". */
  lemma StateRowPadding(sp: Dict<StateValue>, i: nat)
    requires i > |sp|
    ensures Cell(StateRow(sp), StateLabelCol(i)) == ""
    ensures Cell(StateRow(sp), StateIdCol(i)) == ""
    ensures Cell(StateRow(sp), TokenCol(i)) == ""
  {
    var row := StateRow(sp);
    forall j | 0 <= j < |row|
      ensures row[j].0 != StateLabelCol(i) && row[j].0 != StateIdCol(i) && row[j].0 != TokenCol(i)
    {
      assert row[j].0 == StateKeys(|sp|)[j];
      StateKeysPos(|sp|, j);
    }
  }

  // ---------------------------------------------------------------------------
  // Full row
  // ---------------------------------------------------------------------------

  /** Lines 233-234: the char row, the state row and the tag, side by side. */
  function FullRow(rec: Record): Row {
    CharRow(rec.charPart) + StateRow(rec.statePart) + [(TagCol, TagName(rec.tag))]
  }

  predicate IsCharCol(c: Col) {
    c.OrgLabelCol? || c.OrgIdCol? || c.LocLabelCol? || c.LocIdCol? ||
    c.VarLabelCol? || c.VarIdCol? || c.VarCommentCol?
  }

  /** The char row only has char columns; the state row only has state columns. */
  lemma RowKinds(rec: Record)
    ensures forall i :: 0 <= i < |CharRow(rec.charPart)| ==> IsCharCol(CharRow(rec.charPart)[i].0)
    ensures forall i :: 0 <= i < |StateRow(rec.statePart)| ==>
      IsStateCol(StateRow(rec.statePart)[i].0)
  {
    var ks := CharKeys(|rec.charPart|);
    var m := if |rec.charPart| >= 2 then |rec.charPart| - 2 else 0;
    forall i | 0 <= i < |ks| ensures IsCharCol(ks[i]) {
      if 2 <= i < 2 + 2 * m {
        assert ks[i] == LocatorKeys(m)[i - 2];
        LocatorKeysPos(m, i - 2);
      }
    }
    var sk := StateKeys(|rec.statePart|);
    forall i | 0 <= i < |sk| ensures IsStateCol(sk[i]) {
      StateKeysPos(|rec.statePart|, i);
    }
  }

  /** A full-row cell reads the char row for char columns, the state row for state
      columns, and the tag for the tag column. */
  lemma FullRowCell(rec: Record, c: Col)
    ensures Cell(FullRow(rec), c) ==
      if IsCharCol(c) then Cell(CharRow(rec.charPart), c)
      else if c.TagCol? then TagName(rec.tag)
      else Cell(StateRow(rec.statePart), c)
  {
    var a := CharRow(rec.charPart);
    var b := StateRow(rec.statePart);
    var t: Row := [(TagCol, TagName(rec.tag))];
    assert FullRow(rec) == a + (b + t);
    CellAppend(a, b + t, c);
    RowKinds(rec);
    if IsCharCol(c) {
      if !HasCol(a, c) {
        NotInTail(b, t, c);
      }
    } else {
      assert !HasCol(a, c);
      CellAppend(b, t, c);
      if c.TagCol? {
        assert !HasCol(b, c);
        CellAt(t, 0);
      }
    }
  }

  /** A char column is in neither the state row nor the tag. */
  lemma NotInTail(b: Row, t: Row, c: Col)
    requires IsCharCol(c)
    requires forall i :: 0 <= i < |b| ==> IsStateCol(b[i].0)
    requires |t| == 1 && t[0].0 == TagCol
    ensures !HasCol(b + t, c)
  {
    forall j | 0 <= j < |b + t| ensures (b + t)[j].0 != c {
      if j < |b| {
        assert (b + t)[j] == b[j];
      }
    }
  }

  lemma CellAppend(a: Row, b: Row, c: Col)
    ensures Cell(a + b, c) == if HasCol(a, c) then Cell(a, c) else Cell(b, c)
  {
    var ab := a + b;
    var k := ColIndex(a, c, 0);
    if k >= 0 {
      ColIndexUnique(ab, c, k);
    } else {
      var kb := ColIndex(b, c, 0);
      assert forall j :: 0 <= j < |b| ==> ab[|a| + j] == b[j];
      ColIndexUnique(ab, c, if kb < 0 then -1 else |a| + kb);
    }
  }
}
