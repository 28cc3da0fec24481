/** The JSON export of a character file (phylo_parser/main.py, lines 236-306): one
    entry per character, with the organism read back from the full table row, the
    locators and the Variable object taken from the character part, and the states from
    the state part. Empty ids become JSON null. */
module Json {
  import opened Wrappers
  import opened Dicts
  import opened Statement
  import opened Rows

  /** `none_if_empty` (lines 27-28), and the `x if x else None` of the locator, Variable
      and state URIs: "" becomes null, anything else is kept. */
  function NoneIfEmpty(s: string): (r: Option<string>)
    ensures r == None <==> s == ""
    ensures r.GetOr("") == s
  {
    if s == "" then None else Some(s)
  }

  /** `{"Locator i label": ..., "Locator i URI": ...}` */
  datatype LocatorObj = LocatorObj(index: nat, name: string, uri: Option<string>)

  /** `{"Variable label": ..., "Variable URI": ...}`, with "Variable comment" only in a
      transformational_complex statement. */
  datatype VariableObj = VariableObj(name: string, uri: Option<string>, comment: Option<string>)

  /** `{"State i label": ..., "State i URI": ..., "State i token": ...}` */
  datatype StateObj = StateObj(index: nat, name: string, uri: Option<string>, token: string)

  /** One element of the exported list; `variable` is None when the key is absent. */
  datatype Entry = Entry(
    charId: string,
    orgLabel: Option<string>,
    orgUri: Option<string>,
    locators: seq<LocatorObj>,
    variable: Option<VariableObj>,
    states: seq<StateObj>,
    tag: string)

  // ---------------------------------------------------------------------------
  // Locators
  // ---------------------------------------------------------------------------

  /** `[k for k in keys if k != "Variable" and k != organism_label]` */
  function LocatorNames(ks: seq<string>, org: string): (r: seq<string>)
    ensures |r| <= |ks|
    ensures forall x :: x in r <==> x in ks && x != VariableKey && x != org
  {
    if ks == [] then []
    else
      var rest := LocatorNames(ks[1..], org);
      assert ks == [ks[0]] + ks[1..];
      if ks[0] != VariableKey && ks[0] != org then [ks[0]] + rest else rest
  }

  /** The filter keeps the order of the keys: it distributes over concatenation. */
  lemma {:induction false} LocatorNamesAppend(a: seq<string>, b: seq<string>, org: string)
    ensures LocatorNames(a + b, org) == LocatorNames(a, org) + LocatorNames(b, org)
  {
    if a != [] {
      assert (a + b)[0] == a[0] && (a + b)[1..] == a[1..] + b;
      LocatorNamesAppend(a[1..], b, org);
      var h := if a[0] != VariableKey && a[0] != org then [a[0]] else [];
      assert LocatorNames(a, org) == h + LocatorNames(a[1..], org);
      assert LocatorNames(a + b, org) == h + LocatorNames(a[1..] + b, org);
      assert h + (LocatorNames(a[1..], org) + LocatorNames(b, org)) == (h + LocatorNames(a[1..], org)) + LocatorNames(b, org);
    } else {
      assert a + b == b;
    }
  }

  /** Keys that are neither "Variable" nor the organism label all pass, in order. */
  lemma {:induction false} LocatorNamesKeepAll(ks: seq<string>, org: string)
    requires forall i :: 0 <= i < |ks| ==> ks[i] != VariableKey && ks[i] != org
    ensures LocatorNames(ks, org) == ks
  {
    if ks != [] {
      LocatorNamesKeepAll(ks[1..], org);
    }
  }

  /** `char_data["char_part"][loc_label]` for a key of the char part. */
  function UriOf(cp: Dict<CharValue>, k: string): string
    requires k in Keys(cp)
  {
    Get(cp, k).value.uri
  }

  /** The locator objects, numbered from 1. */
  function LocatorObjs(cp: Dict<CharValue>, names: seq<string>): (ls: seq<LocatorObj>)
    requires forall x :: x in names ==> x in Keys(cp)
    ensures |ls| == |names|
    ensures forall i :: 0 <= i < |ls| ==>
      ls[i] == LocatorObj(i + 1, names[i], NoneIfEmpty(UriOf(cp, names[i])))
  {
    seq(|names|, i requires 0 <= i < |names| => LocatorObj(i + 1, names[i], NoneIfEmpty(UriOf(cp, names[i]))))
  }

  // ---------------------------------------------------------------------------
  // Variable and states
  // ---------------------------------------------------------------------------

  /** Lines 282-292: the Variable object, present when the statement is not neomorphic
      and the char part has "Variable"; the comment only in a complex statement. */
  function VariableObjOf(rec: Record): Option<VariableObj>
    requires rec.tag != Neomorphic ==> VariableHoldsList(rec.charPart)
  {
    if rec.tag != Neomorphic && VariableKey in Keys(rec.charPart) then
      var v := Get(rec.charPart, VariableKey).value;
      Some(VariableObj(v.name, NoneIfEmpty(v.uri), if rec.tag == Complex then Some(v.comment) else None))
    else None
  }

  /** The state objects, numbered from 0, in the order of the state part. */
  function StateObjs(sp: Dict<StateValue>): (ss: seq<StateObj>)
    ensures |ss| == |sp|
    ensures forall i :: 0 <= i < |ss| ==>
      ss[i] == StateObj(i, sp[i].1.name, NoneIfEmpty(sp[i].1.uri), sp[i].0)
  {
    seq(|sp|, i requires 0 <= i < |sp| => StateObj(i, sp[i].1.name, NoneIfEmpty(sp[i].1.uri), sp[i].0))
  }

  // ---------------------------------------------------------------------------
  // The entry
  // ---------------------------------------------------------------------------

  /** The organism label as the full table holds it. */
  function OrganismLabel(rec: Record): string {
    Cell(FullRow(rec), OrgLabelCol)
  }

  /** The entry exported for the character `id`. */
  function EntryOf(id: string, rec: Record): Entry
    requires rec.tag != Neomorphic ==> VariableHoldsList(rec.charPart)
  {
    var cp := rec.charPart;
    var org := OrganismLabel(rec);
    Entry(id,
      NoneIfEmpty(org),
      NoneIfEmpty(Cell(FullRow(rec), OrgIdCol)),
      LocatorObjs(cp, LocatorNames(Keys(cp), org)),
      VariableObjOf(rec),
      StateObjs(rec.statePart),
      TagName(rec.tag))
  }

  /** Lines 250-304: build one entry, the locators and the states one at a time. */
  method BuildEntry(id: string, rec: Record) returns (e: Entry)
    requires rec.tag != Neomorphic ==> VariableHoldsList(rec.charPart)
    ensures e == EntryOf(id, rec)
  {
    var cp := rec.charPart;
    var row := FullRow(rec);
    var org := Cell(row, OrgLabelCol);
    var names := LocatorNames(Keys(cp), org);
    var locators := [];
    for i := 0 to |names|
      invariant locators == LocatorObjs(cp, names[..i])
    {
      var uri := Get(cp, names[i]).value.uri;
      locators := locators + [LocatorObj(i + 1, names[i], if uri != "" then Some(uri) else None)];
      LocatorObjsStep(cp, names, i);
    }
    assert names[..|names|] == names;
    var variable := None;
    if rec.tag != Neomorphic && VariableKey in Keys(cp) {
      var v := Get(cp, VariableKey).value;
      var obj := VariableObj(v.name, NoneIfEmpty(v.uri), None);
      if rec.tag == Complex {
        obj := obj.(comment := Some(v.comment));
      }
      variable := Some(obj);
    }
    var states := [];
    for i := 0 to |rec.statePart|
      invariant states == StateObjs(rec.statePart[..i])
    {
      var (token, state) := rec.statePart[i];
      states := states + [StateObj(i, state.name, NoneIfEmpty(state.uri), token)];
      StateObjsStep(rec.statePart, i);
    }
    assert rec.statePart[..|rec.statePart|] == rec.statePart;
    e := Entry(id, NoneIfEmpty(org), NoneIfEmpty(Cell(row, OrgIdCol)), locators, variable, states, TagName(rec.tag));
  }

  lemma LocatorObjsStep(cp: Dict<CharValue>, names: seq<string>, i: nat)
    requires i < |names| && forall x :: x in names ==> x in Keys(cp)
    ensures forall x :: x in names[..i] ==> x in Keys(cp)
    ensures forall x :: x in names[..i + 1] ==> x in Keys(cp)
    ensures LocatorObjs(cp, names[..i + 1]) ==
      LocatorObjs(cp, names[..i]) + [LocatorObj(i + 1, names[i], NoneIfEmpty(UriOf(cp, names[i])))]
  {
    assert forall x :: x in names[..i + 1] ==> x in names;
  }

  lemma StateObjsStep(sp: Dict<StateValue>, i: nat)
    requires i < |sp|
    ensures StateObjs(sp[..i + 1]) ==
      StateObjs(sp[..i]) + [StateObj(i, sp[i].1.name, NoneIfEmpty(sp[i].1.uri), sp[i].0)]
  {
  }

  // ---------------------------------------------------------------------------
  // Properties of the entry
  // ---------------------------------------------------------------------------

  /** The organism is the first entry of the char part: its key and id, or the Variable
      label and id when the Variable list comes first. */
  lemma EntryOrganism(id: string, rec: Record)
    requires WellFormed(rec)
    ensures EntryOf(id, rec).orgLabel == NoneIfEmpty(EntryPair(rec.charPart[0]).0)
    ensures EntryOf(id, rec).orgUri == NoneIfEmpty(EntryPair(rec.charPart[0]).1)
  {
    FullRowCell(rec, OrgLabelCol);
    FullRowCell(rec, OrgIdCol);
    CharRowOrganism(rec.charPart);
  }

  /** A neomorphic statement has no Variable object; any other has one exactly when its
      char part has "Variable". The comment is there exactly when the statement is
      transformational_complex, and then it is the non-empty comment of the list. */
  lemma EntryVariable(id: string, rec: Record)
    requires WellFormed(rec)
    ensures var e := EntryOf(id, rec);
      && (e.variable.Some? <==> rec.tag != Neomorphic && VariableKey in Keys(rec.charPart))
      && (rec.tag == Complex <==> e.variable.Some? && e.variable.value.comment.Some?)
      && (e.variable.Some? && e.variable.value.comment.Some? ==>
            e.variable.value.comment.value != "" &&
            e.variable.value.comment.value == Get(rec.charPart, VariableKey).value.comment)
  {
  }

  /** The locators are numbered 1, 2, ... and are exactly the keys of the char part other
      than "Variable" and the organism label, in order, each with its id or null. */
  lemma EntryLocators(id: string, rec: Record)
    requires rec.tag != Neomorphic ==> VariableHoldsList(rec.charPart)
    ensures var e := EntryOf(id, rec);
      && (forall i :: 0 <= i < |e.locators| ==> e.locators[i].index == i + 1)
      && (forall x :: (exists i :: 0 <= i < |e.locators| && e.locators[i].name == x) <==>
            x in Keys(rec.charPart) && x != VariableKey && x != OrganismLabel(rec))
      && (forall i :: 0 <= i < |e.locators| ==>
            Get(rec.charPart, e.locators[i].name).Some? &&
            (e.locators[i].uri == None <==> Get(rec.charPart, e.locators[i].name).value.uri == ""))
  {
    var names := LocatorNames(Keys(rec.charPart), OrganismLabel(rec));
    LocatorObjsNames(rec.charPart, names);
  }

  lemma LocatorObjsNames(cp: Dict<CharValue>, names: seq<string>)
    requires forall x :: x in names ==> x in Keys(cp)
    ensures var ls := LocatorObjs(cp, names);
      && (forall i :: 0 <= i < |ls| ==> ls[i].index == i + 1)
      && (forall x :: (exists i :: 0 <= i < |ls| && ls[i].name == x) <==> x in names)
      && (forall i :: 0 <= i < |ls| ==>
            Get(cp, ls[i].name).Some? && (ls[i].uri == None <==> Get(cp, ls[i].name).value.uri == ""))
  {
    var ls := LocatorObjs(cp, names);
    forall x ensures (exists i :: 0 <= i < |ls| && ls[i].name == x) <==> x in names {
      if x in names {
        var i :| 0 <= i < |names| && names[i] == x;
        assert ls[i].name == x;
      }
    }
  }

  /** The states are numbered from 0 and follow the state part: label, id or null, token. */
  lemma EntryStates(id: string, rec: Record)
    requires rec.tag != Neomorphic ==> VariableHoldsList(rec.charPart)
    ensures var e := EntryOf(id, rec);
      && |e.states| == |rec.statePart|
      && forall i :: 0 <= i < |e.states| ==>
        && e.states[i].index == i
        && e.states[i].token == rec.statePart[i].0
        && e.states[i].name == rec.statePart[i].1.name
        && e.states[i].uri.GetOr("") == rec.statePart[i].1.uri
  {
  }

  /** In the usual layout, organism first and the Variable list last, the JSON locators
      are the table's locator columns: locator i of the entry has the label and id of
      Locator_i of the full row. */
  lemma EntryLocatorsMatchRow(id: string, rec: Record)
    requires WellFormed(rec) && |rec.charPart| >= 2
    requires rec.charPart[0].1.Term?
    requires rec.charPart[|rec.charPart| - 1].0 == VariableKey
    ensures var e := EntryOf(id, rec);
      && |e.locators| == |rec.charPart| - 2
      && forall i :: 1 <= i <= |e.locators| ==>
        && e.locators[i - 1].name == Cell(FullRow(rec), LocLabelCol(i))
        && e.locators[i - 1].uri == NoneIfEmpty(Cell(FullRow(rec), LocIdCol(i)))
  {
    var cp := rec.charPart;
    OrganismFirstTerm(rec);
    var org := OrganismLabel(rec);
    LocatorNamesUsual(cp, org);
    var names := LocatorNames(Keys(cp), org);
    var e := EntryOf(id, rec);
    assert e.locators == LocatorObjs(cp, names);
    forall i | 1 <= i <= |e.locators|
      ensures e.locators[i - 1].name == Cell(FullRow(rec), LocLabelCol(i))
      ensures e.locators[i - 1].uri == NoneIfEmpty(Cell(FullRow(rec), LocIdCol(i)))
    {
      LocatorCells(rec, i);
      assert names[i - 1] == cp[i].0;
      GetAt(cp, i);
    }
  }

  /** When the first entry is a term, the organism label is its key. */
  lemma OrganismFirstTerm(rec: Record)
    requires |rec.charPart| >= 1 && rec.charPart[0].1.Term?
    ensures OrganismLabel(rec) == rec.charPart[0].0
  {
    FullRowCell(rec, OrgLabelCol);
    CharRowOrganism(rec.charPart);
  }

  /** The table's Locator_i columns hold the i-th entry's key and id when it is a term. */
  lemma LocatorCells(rec: Record, i: nat)
    requires 1 <= i <= |rec.charPart| - 2 && rec.charPart[i].1.Term?
    ensures Cell(FullRow(rec), LocLabelCol(i)) == rec.charPart[i].0
    ensures Cell(FullRow(rec), LocIdCol(i)) == rec.charPart[i].1.uri
  {
    FullRowCell(rec, LocLabelCol(i));
    FullRowCell(rec, LocIdCol(i));
    CharRowLocator(rec.charPart, i);
  }

  /** Organism first and "Variable" last: the locators are the keys in between. */
  lemma LocatorNamesUsual(cp: Dict<CharValue>, org: string)
    requires UniqueKeys(cp) && ListsUnderVariable(cp) && |cp| >= 2
    requires org == cp[0].0 && cp[|cp| - 1].0 == VariableKey
    ensures LocatorNames(Keys(cp), org) == Keys(cp)[1..|cp| - 1]
    ensures forall i :: 1 <= i < |cp| - 1 ==> cp[i].1.Term?
  {
    var n := |cp|;
    var ks := Keys(cp);
    var mid := ks[1..n - 1];
    assert ks == [ks[0]] + mid + [ks[n - 1]];
    forall j | 0 <= j < |mid| ensures mid[j] != VariableKey && mid[j] != org {
      assert mid[j] == ks[j + 1];
    }
    LocatorNamesAppend([ks[0]] + mid, [ks[n - 1]], org);
    LocatorNamesAppend([ks[0]], mid, org);
    LocatorNamesKeepAll(mid, org);
  }

  /** In a dict with unique keys, the key at position i holds the value stored there. */
  lemma GetAt<V>(d: Dict<V>, i: nat)
    requires UniqueKeys(d) && i < |d|
    ensures Get(d, d[i].0) == Some(d[i].1)
  {
    assert Keys(d)[i] == d[i].0;
  }
}
