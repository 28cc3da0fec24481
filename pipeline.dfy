/** One character file end to end (phylo_parser/main.py, lines 140-330): parse every
    line into a record stored under its character id, lay the records out as the full
    table, export one JSON entry per character and list the missing terms in sorted
    order. Reading and writing the files is left to the caller: the lines come in, the
    table rows, the entries and the lines of the missing-term report go out. */
module Pipeline {
  import opened Wrappers
  import opened Text
  import opened Dicts
  import opened Statement
  import opened Rows
  import opened Json
  import opened Missing
  import opened Order

  /** What the per-file processor produces. */
  datatype Output = Output(
    table: Table,          // `char_ls_dict`
    rows: seq<Row>,        // the rows of `final_df`, in the table's order
    entries: seq<Entry>,   // `final_json`
    report: seq<string>)   // the lines of the missing-term CSV, header first

  const ReportHeader: string := "Missing term"

  /** Every line as `for line in file` yields it: a line break, if any, comes last. */
  predicate FileLines(lines: seq<string>) {
    forall i :: 0 <= i < |lines| ==> FileLine(lines[i])
  }

  /** What each line's split and parse gives: its id and record, or its error. */
  type Parse = Result<(string, Record), LineError>

  /** Lines 148-190: the results of the lines stored one by one, each record under
      its id in the order the ids first appear; the first failing line aborts the
      file with its index and its error. */
  function Store(ps: seq<Parse>): (r: Result<Table, (nat, LineError)>)
  {
    if ps == [] then Success([])
    else
      var n: nat := |ps| - 1;
      var prev := Store(ps[..n]);
      if prev.Failure? then prev
      else if ps[n].Failure? then Failure((n, ps[n].error))
      else Success(Put(prev.value, ps[n].value.0, ps[n].value.1))
  }

  /** The result of every line of the file. */
  function Results(t: Tables, lines: seq<string>): (ps: seq<Parse>)
    requires FileLines(lines)
    ensures |ps| == |lines|
    ensures forall i :: 0 <= i < |lines| ==> ps[i] == RecordOf(t, lines[i])
  {
    seq(|lines|, i requires 0 <= i < |lines| => RecordOf(t, lines[i]))
  }

  /** The table of a file, or the index and error of its first failing line. */
  function TableOf(t: Tables, lines: seq<string>): Result<Table, (nat, LineError)>
    requires FileLines(lines)
  {
    Store(Results(t, lines))
  }

  /** The file fails exactly when a line fails, and then with the first failing line. */
  lemma {:induction false} StoreFailure(ps: seq<Parse>)
    ensures Store(ps).Success? ==> forall j :: 0 <= j < |ps| ==> ps[j].Success?
    ensures Store(ps).Failure? ==>
      && Store(ps).error.0 < |ps| && ps[Store(ps).error.0] == Failure(Store(ps).error.1)
      && forall j :: 0 <= j < Store(ps).error.0 ==> ps[j].Success?
  {
    if ps != [] {
      var n := |ps| - 1;
      var init := ps[..n];
      StoreFailure(init);
      if Store(init).Failure? {
        assert init[Store(init).error.0] == ps[Store(init).error.0];
        forall j | 0 <= j < Store(init).error.0 ensures ps[j].Success? {
          assert init[j] == ps[j];
        }
      } else if ps[n].Success? {
        forall j | 0 <= j < |ps| ensures ps[j].Success? {
          if j < n {
            assert init[j] == ps[j];
          }
        }
      } else {
        forall j | 0 <= j < n ensures ps[j].Success? {
          assert init[j] == ps[j];
        }
      }
    }
  }

  /** Only the ids and records, when every result is one. */
  function Records(ps: seq<Parse>): (kvs: seq<(string, Record)>)
    requires forall i :: 0 <= i < |ps| ==> ps[i].Success?
    ensures |kvs| == |ps|
    ensures forall i :: 0 <= i < |ps| ==> kvs[i] == ps[i].value
  {
    seq(|ps|, i requires 0 <= i < |ps| => ps[i].value)
  }

  /** When every line parses, the table is the assignments of the lines, one after the
      other, to an empty dict. */
  lemma {:induction false} StoreAssignments(ps: seq<Parse>)
    requires forall i :: 0 <= i < |ps| ==> ps[i].Success?
    ensures Store(ps) == Success(PutAll([], Records(ps)))
  {
    if ps != [] {
      var n := |ps| - 1;
      StoreAssignments(ps[..n]);
      assert Records(ps)[..n] == Records(ps[..n]);
    }
  }

  /** A repeated character id keeps the place of its first line and takes the record of
      its last line. */
  lemma StoreContents(ps: seq<Parse>, id: string)
    requires forall i :: 0 <= i < |ps| ==> ps[i].Success?
    ensures Store(ps).Success?
    ensures Keys(Store(ps).value) == Dedup(Keys(Records(ps)))
    ensures UniqueKeys(Store(ps).value)
    ensures Get(Store(ps).value, id) == LastValue(Records(ps), id)
  {
    StoreAssignments(ps);
    PutAllKeys(Records(ps));
    PutAllGet([], Records(ps), id);
  }

  /** Every record of the table is well formed, and no id is stored twice. */
  predicate TableWellFormed(tbl: Table) {
    UniqueKeys(tbl) && forall k :: 0 <= k < |tbl| ==> WellFormed(tbl[k].1)
  }

  lemma TablePut(tbl: Table, id: string, rec: Record)
    requires TableWellFormed(tbl) && WellFormed(rec)
    ensures TableWellFormed(Put(tbl, id, rec))
  {
    forall k | 0 <= k < |Put(tbl, id, rec)| ensures WellFormed(Put(tbl, id, rec)[k].1) {
      PutEntry(tbl, id, rec, k);
    }
  }

  /** Every record a line produces is well formed, so every table of a file is. */
  predicate ResultsWellFormed(ps: seq<Parse>) {
    forall i :: 0 <= i < |ps| && ps[i].Success? ==> WellFormed(ps[i].value.1)
  }

  lemma LinesWellFormed(t: Tables, lines: seq<string>)
    requires FileLines(lines)
    ensures ResultsWellFormed(Results(t, lines))
  {
    forall i | 0 <= i < |lines| && RecordOf(t, lines[i]).Success? ensures WellFormed(RecordOf(t, lines[i]).value.1) {
      RecordWellFormed(t, lines[i]);
    }
  }

  lemma {:induction false} StoreWellFormed(ps: seq<Parse>)
    requires ResultsWellFormed(ps) && Store(ps).Success?
    ensures TableWellFormed(Store(ps).value)
  {
    if ps != [] {
      var n := |ps| - 1;
      assert ResultsWellFormed(ps[..n]) by {
        assert forall j :: 0 <= j < n ==> ps[..n][j] == ps[j];
      }
      StoreWellFormed(ps[..n]);
      TablePut(Store(ps[..n]).value, ps[n].value.0, ps[n].value.1);
    }
  }

  /** A line with no '.', a blank line among them, aborts the file with the unpacking
      error of its first split. */
  lemma LineWithoutDot(t: Tables, line: string)
    requires FileLine(line) && '.' !in line
    ensures RecordOf(t, line) == Failure(NoDot)
  {
    StripChars(line);
  }

  /** What the processor writes for a table whose lines all split. */
  ghost function OutputOf(tbl: Table): Output
    requires TableWellFormed(tbl)
  {
    Output(tbl, TableRows(tbl),
      EntriesOf(tbl),
      [ReportHeader] + SortedOf(MissingTerms(tbl, true)))
  }

  /** One more line stored. */
  lemma StoreStep(ps: seq<Parse>, i: nat)
    requires i < |ps| && Store(ps[..i]).Success?
    ensures Store(ps[..i + 1]) ==
      if ps[i].Failure? then Failure((i, ps[i].error))
      else Success(Put(Store(ps[..i]).value, ps[i].value.0, ps[i].value.1))
  {
    assert ps[..i + 1][..i] == ps[..i];
  }

  /** A failure among the first n results is the failure of them all. */
  lemma {:induction false} PrefixFailure(ps: seq<Parse>, n: nat)
    requires n <= |ps| && Store(ps[..n]).Failure?
    ensures Store(ps) == Store(ps[..n])
    decreases |ps|
  {
    if n < |ps| {
      var m := |ps| - 1;
      PrefixOfPrefix(ps, m, n);
      PrefixFailure(ps[..m], n);
    } else {
      PrefixAll(ps);
    }
  }

  /** Lines 140-330: process one file. */
  method ProcessFile(t: Tables, lines: seq<string>) returns (r: Result<Output, (nat, LineError)>)
    requires FileLines(lines)
    ensures r.Failure? <==> TableOf(t, lines).Failure?
    ensures r.Failure? ==> r.error == TableOf(t, lines).error
    ensures r.Success? ==>
      TableWellFormed(TableOf(t, lines).value) && r.value == OutputOf(TableOf(t, lines).value)
  {
    var parsed := ParseFile(t, lines);
    if parsed.Failure? {
      return Failure(parsed.error);
    }
    var tbl := parsed.value;
    LinesWellFormed(t, lines);
    StoreWellFormed(Results(t, lines));
    var rows := TableRows(tbl);
    var entries := BuildEntries(tbl);
    var missing := CollectMissing(tbl, true);
    var sorted := SortTerms(missing);
    var report := WriteReport(sorted);
    r := Success(Output(tbl, rows, entries, report));
  }

  /** Lines 148-190: read the lines one by one into the table. */
  method ParseFile(t: Tables, lines: seq<string>) returns (r: Result<Table, (nat, LineError)>)
    requires FileLines(lines)
    ensures r == TableOf(t, lines)
  {
    var tbl: Table := [];
    var i := 0;
    while i < |lines|
      invariant i <= |lines|
      invariant Store(Results(t, lines)[..i]) == Success(tbl)
    {
      var next := StoreLine(t, lines, i, tbl);
      if next.Failure? {
        return next;
      }
      tbl := next.value;
      i := i + 1;
    }
    PrefixAll(Results(t, lines));
    r := Success(tbl);
  }

  /** Lines 149-190, the body of the loop: line i is split and parsed, and either
      aborts the file with its error or is stored into the table of the lines before
      it. */
  method StoreLine(t: Tables, lines: seq<string>, i: nat, tbl: Table)
    returns (r: Result<Table, (nat, LineError)>)
    requires FileLines(lines) && i < |lines|
    requires Store(Results(t, lines)[..i]) == Success(tbl)
    ensures r.Failure? ==> r == TableOf(t, lines)
    ensures r.Success? ==> r == Store(Results(t, lines)[..i + 1])
  {
    ghost var ps := Results(t, lines);
    var p := ParseLine(t, lines[i]);
    StoreStep(ps, i);
    if p.Failure? {
      PrefixFailure(ps, i + 1);
      return Failure((i, p.error));
    }
    r := Success(Put(tbl, p.value.0, p.value.1));
  }

  /** Every record whose Variable is not overridden holds its Variable as a list, so
      its entry can unpack it. */
  predicate Exportable(tbl: Table) {
    forall k :: 0 <= k < |tbl| ==> tbl[k].1.tag != Neomorphic ==> VariableHoldsList(tbl[k].1.charPart)
  }

  /** The entry of every character, in the table's order. */
  function EntriesOf(tbl: Table): (es: seq<Entry>)
    requires Exportable(tbl)
    ensures |es| == |tbl|
    ensures forall k :: 0 <= k < |tbl| ==> es[k] == EntryOf(tbl[k].0, tbl[k].1)
  {
    seq(|tbl|, k requires 0 <= k < |tbl| => EntryOf(tbl[k].0, tbl[k].1))
  }

  /** Lines 250-306: one entry per character, in the table's order. */
  method BuildEntries(tbl: Table) returns (entries: seq<Entry>)
    requires Exportable(tbl)
    ensures entries == EntriesOf(tbl)
  {
    ghost var all := EntriesOf(tbl);
    entries := [];
    for k := 0 to |tbl|
      invariant entries == all[..k]
    {
      var e := BuildEntry(tbl[k].0, tbl[k].1);
      assert e == all[k];
      PrefixStep(all, k);
      entries := entries + [e];
    }
    PrefixAll(all);
  }

  lemma PrefixStep<T>(s: seq<T>, k: nat)
    requires k < |s|
    ensures s[..k + 1] == s[..k] + [s[k]]
  {
  }

  lemma PrefixOfPrefix<T>(s: seq<T>, m: nat, n: nat)
    requires n <= m <= |s|
    ensures s[..m][..n] == s[..n]
  {
  }

  lemma PrefixAll<T>(s: seq<T>)
    ensures s[..|s|] == s
  {
  }

  /** Lines 326-330: the header, then one line per term in the given order. */
  method WriteReport(terms: seq<string>) returns (report: seq<string>)
    ensures report == [ReportHeader] + terms
  {
    report := [ReportHeader];
    for k := 0 to |terms|
      invariant report == [ReportHeader] + terms[..k]
    {
      report := report + [terms[k]];
    }
    assert terms[..|terms|] == terms;
  }
}
