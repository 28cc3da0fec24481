# phylo_parser: the per-file character-statement pipeline

phylo_parser turns files of phylogenetic character statements into tables, JSON
records and a list of ontology terms it could not resolve. Each statement line has the form

    <id>. <organism>, <locator>, ..., <variable> [<comment>] : <state> (<token>), ...

This project models `process_character_file` (phylo_parser/main.py, lines 140-330)
and its helper `none_if_empty` (lines 27-28), and proves properties of the model.
The model processes one file end to end:

- **Line parsing.** Each line splits into an id, a character text and a state text.
  The character text is cut into lower-cased tokens. The one `label [comment]`
  token becomes the Variable list; every other token is looked up as an entity.
  The states `label (token)` are found by a regular expression and looked up as
  qualities. The statement is then tagged `neomorphic`,
  `transformational_complex` or `transformational_simple`. A neomorphic
  statement has its Variable overwritten with `""`.
- **Storing.** Each record is stored under its character id. A repeated id keeps
  its first position and takes the last record. The first line that cannot be
  unpacked aborts the file.
- **Flattening.** Each record becomes a char-part row (keys and values zipped by
  position), a state-part row (label, id and token triples) and the tag. A cell
  a row does not have reads `""`, as after pandas' `fillna("")`. That holds in
  the program for every record with at least one state; for a record without
  states see "## Left out".
- **JSON export.** One entry per character: the organism read back from the full
  row, the locators, the Variable object, the states, and the tag. An empty id
  becomes null.
- **Missing-term report.** The labels paired with empty id cells, sorted.

The modules follow the program's steps:

| module | file | what it holds |
|---|---|---|
| `Wrappers` | wrappers.dfy | `Option`, `Result` |
| `Text` | text.dfy | `str.strip`, `str.lower`, `str.split` with and without a limit |
| `Dicts` | dicts.dfy | Python dicts as association lists in insertion order |
| `Patterns` | patterns.dfy | the two regular expressions, as explicit matchers proved against declarative descriptions of what they match |
| `Statement` | statement.dfy | the line parser and the classifier |
| `Rows` | rows.dfy | the char, state and full rows, with padding |
| `Json` | json.dfy | the JSON entry |
| `Missing` | missing.dfy | the missing-term scan |
| `Order` | order.dfy | Python's string order and `sorted` of a set |
| `Pipeline` | pipeline.dfy | one file end to end |

Where the code loops and updates (filling `char_text_d`, `state_dict`,
`char_ls_dict`, `vals`, `lst`, the JSON lists and the `missing` set), the model is
a method with a loop. Each such method is proved equal to a function. The
properties are proved about those functions.

Where the code behaves in ways a reader may not expect, the model follows the code:

- **State labels after a comma.** The state pattern resumes right after each `)`.
  So in `absent (0), present (1)` the second label is `", present"`, not `"present"`
  (`Patterns.CommaStartsNextLabel`). Only the first label is compared with
  "absent"/"present" verbatim.
- **The missing-term scan is not a set of unresolved labels.** It reports the
  label column next to every empty id column. Padding therefore reports `""`
  (`Missing.PaddingReportsEmpty`). A neomorphic statement with no Variable list
  reports the word `Variable` (`Missing.NeomorphicReportsVariable`).
- **The Variable id has no synonym lookup.** It falls back to the label itself
  (`Statement.VariableId`).
- **Without a Variable list, the Variable columns hold the last locator**
  (`Rows.CharRowVariable`).

Two places where the code evidently does not do what it intends are listed under
"## Findings". The model uses the corrected behaviour and proves the discrepancy
against a member that follows the code as written.

## Model

| member | source | states |
|---|---|---|
| Text.StripSpec | phylo_parser/main.py:150-151 | `strip()` removes exactly the leading and trailing runs of white space: what remains neither starts nor ends with white space, and everything removed is white space |
| Text.StripChars | phylo_parser/main.py:150-151 | stripping never introduces a character that was not in the string |
| Text.Lower | phylo_parser/main.py:153 | `lower()` keeps the length and lower-cases each character in place |
| Text.SplitOnce | phylo_parser/main.py:150-151 | `split(sep, 1)` unpacks into two parts exactly when sep occurs; then the parts rejoin to the string around the first sep, and the first part is free of sep |
| Text.Split | phylo_parser/main.py:153 | `split(",")` gives at least one part; no part holds the separator; every character of a part comes from the string |
| Text.SplitJoin | phylo_parser/main.py:153 | joining the parts of a split with the separator gives back the string |
| Text.JoinSplit | phylo_parser/main.py:153 | separator-free parts are recovered by splitting their join |
| Dicts.Get | phylo_parser/main.py:166 | `d.get(k)` finds a value exactly when k is a key, and the value is the one stored with k |
| Dicts.Put | phylo_parser/main.py:167 | `d[k] = v` appends a new key at the end and keeps an old key in its place; k then holds v and every other key keeps its value; keys stay unique |
| Dicts.PutAllKeys | phylo_parser/main.py:190 | after a series of assignments to an empty dict, the keys are unique and appear in the order of their first assignment |
| Dicts.PutAllGet | phylo_parser/main.py:190 | after a series of assignments, each key holds the value of its last assignment |
| Dicts.DedupSpec | phylo_parser/main.py:190 | first occurrences keep every key exactly once |
| Dicts.PutAllEntries | phylo_parser/main.py:167 | every entry of the resulting dict is one of the assignments |
| Patterns.CoreIn | phylo_parser/main.py:157 | the group of `\s*(.+?)\s*` lies inside its span, with only white space around it |
| Patterns.CoreInFirst | phylo_parser/main.py:157 | that group is the first decomposition in backtracking order: no other has a longer leading white-space run, and none with the same run has a shorter group |
| Patterns.VariableBounds | phylo_parser/main.py:157 | a reported match of `^(.+?)\s*\[\s*(.+?)\s*\]$` is a decomposition the regex admits |
| Patterns.MatchVariable | phylo_parser/main.py:157-159 | `re.match` succeeds exactly when the matcher finds bounds |
| Patterns.VariableBoundsFirst | phylo_parser/main.py:157 | every admissible decomposition makes the match succeed, and the one returned comes first in backtracking order (shortest label, then longest space after `[`, then shortest comment) |
| Patterns.LabelEndFirst | phylo_parser/main.py:157 | the lazy label group ends no later than in any decomposition |
| Patterns.MatchVariableIff | phylo_parser/main.py:157-158 | the token is a `label [comment]` exactly when it ends in `]` and its first `[` after the first character leaves room for a comment |
| Patterns.MatchVariableStripped | phylo_parser/main.py:159-163 | the stripped label group is the stripped text before the first `[`, and the stripped comment group the stripped text between it and the final `]` |
| Patterns.MatchedLabel | phylo_parser/main.py:161 | the stripped label group is the stripped text before the matched `[` |
| Patterns.MatchedComment | phylo_parser/main.py:163 | the stripped comment group is the stripped text between the matched `[` and `]` |
| Patterns.VariableBoundsBracket | phylo_parser/main.py:157 | the match uses the first `[` after the first character, and the comment group is the core of the text up to the final `]` |
| Patterns.ClassEnd | phylo_parser/main.py:169 | the run of `[^\(\):;"]` characters from k ends at the first character outside the class |
| Patterns.DigitsEnd | phylo_parser/main.py:169 | the run of `\d` from k ends at the first non-digit |
| Patterns.StateBoundsAt | phylo_parser/main.py:169 | a match of the state pattern at j has ordered bounds inside the string |
| Patterns.StateBoundsAtSound | phylo_parser/main.py:169 | what the matcher reports at j is a decomposition the pattern admits |
| Patterns.StateBoundsAtFirst | phylo_parser/main.py:169 | every decomposition at j makes the matcher succeed with the same `(` and token, and its label group comes first in backtracking order |
| Patterns.SpaceInLabelClass | phylo_parser/main.py:169 | white space is inside the label class, so labels may hold inner spaces |
| Patterns.FindStatesWellFormed | phylo_parser/main.py:169 | every label `findall` yields is non-empty and free of `( ) : ; "`, and every token is a non-empty run of digits |
| Patterns.MatchWellFormed | phylo_parser/main.py:169 | each single match has a well-formed label and token |
| Patterns.LabelStartsAtScan | phylo_parser/main.py:169 | a match starting on a non-space character keeps that character in its label |
| Patterns.CommaStartsNextLabel | phylo_parser/main.py:169 | after a match followed by `,`, the next label begins with that `,` |
| Patterns.FindStatesTail | phylo_parser/main.py:169 | after a match, `findall` resumes just past its `)` |
| Patterns.SecondLabel | phylo_parser/main.py:169 | a match starting on `,` keeps the `,` as its label's first character |
| Patterns.FindStatesMatch | phylo_parser/main.py:169 | where the pattern matches at j, `findall` reports that match first and then scans on from its `)` |
| Patterns.FindStatesNone | phylo_parser/main.py:169 | a text without `(` holds no state |
| Statement.TagName | phylo_parser/main.py:180-188 | the tag is written as one of the three tag names |
| Statement.TagNameInjective | phylo_parser/main.py:180-188 | distinct tags are written differently |
| Statement.EntityId | phylo_parser/main.py:166 | a non-empty primary id wins, else the synonym id, else ""; the id is "" exactly when neither table holds a non-empty id |
| Statement.VariableId | phylo_parser/main.py:162 | the Variable id is the primary id if the label is in the table, else the label itself; there is no synonym lookup |
| Statement.StateId | phylo_parser/main.py:173 | a non-empty primary quality id wins, else the synonym id, else ""; "" exactly when neither holds one |
| Statement.CharTokens | phylo_parser/main.py:153 | one token per comma-separated part, each stripped and lower-cased |
| Statement.CharTokensNoBreak | phylo_parser/main.py:153 | tokens of a text without line breaks hold no line break |
| Statement.TokenNotVariableKey | phylo_parser/main.py:153 | no lower-cased token equals the key "Variable" |
| Statement.CharEntry | phylo_parser/main.py:156-167 | a token is stored under "Variable" exactly when it matches `label [comment]`; any other token is stored under itself with its entity id |
| Statement.CharEntries | phylo_parser/main.py:156-167 | reference definition: one assignment per token, in token order |
| Statement.ParseCharPart | phylo_parser/main.py:153-167 | the loop fills `char_text_d` with the tokens' assignments, in order |
| Statement.CharPartKeys | phylo_parser/main.py:156-167 | the keys are the tokens' keys, each once, at its first assignment |
| Statement.CharPartVariable | phylo_parser/main.py:158-164 | "Variable" holds the list of the last `label [comment]` token, and is absent exactly when no token has that form |
| Statement.CharPartTerm | phylo_parser/main.py:165-167 | any other token is stored under itself with its entity id, whatever its position and repeats |
| Statement.LastValueKey | phylo_parser/main.py:167 | a key has a last assignment exactly when some assignment uses it |
| Statement.StateEntries | phylo_parser/main.py:172-174 | reference definition: each match (label, token) is assigned as token ↦ {label: quality id}, in order |
| Statement.ParseStatePart | phylo_parser/main.py:169-174 | the loop fills `state_dict` with the matches' assignments, in order |
| Statement.StatePartShape | phylo_parser/main.py:169-174 | the state part is keyed by token in first-occurrence order; a repeated token keeps its place and takes its last label; every token is digits and every label well formed |
| Statement.TransformationalTag | phylo_parser/main.py:183-188 | a non-neomorphic tag is complex exactly when "Variable" holds a list with a non-empty comment |
| Statement.Classify | phylo_parser/main.py:178-188 | the tag is neomorphic exactly when a state is labelled "absent" or "present"; then "Variable" is set to "" and nothing else changes; otherwise the char part is untouched and the tag is the transformational one |
| Statement.StripFileLine | phylo_parser/main.py:149-150 | a stripped file line holds no line break |
| Statement.SplitLine | phylo_parser/main.py:150-151 | the line fails with the first unpacking error exactly when its stripped text has no `.`, or when the text after the first `.`, stripped, has no `:`; otherwise id, char text and state text rejoin to the line around the first `.` and first `:` |
| Statement.SplitLineNoBreak | phylo_parser/main.py:150-151 | the char text of a file line holds no line break |
| Statement.RecordOf | phylo_parser/main.py:150-188 | a line yields a record exactly when it splits, and otherwise fails with the split's error |
| Statement.ParseLine | phylo_parser/main.py:150-188 | the parse of one line is the record the line defines |
| Statement.CharPartShape | phylo_parser/main.py:153-167 | the char part has at least one entry, holds lists only under "Variable", and holds only a list there |
| Statement.OverrideLists | phylo_parser/main.py:181 | the neomorphic override keeps lists only under "Variable" and never shrinks the char part |
| Statement.RecordWellFormed | phylo_parser/main.py:150-188 | every parsed record has unique keys, a tag that agrees with its states and Variable, and "" under "Variable" exactly when neomorphic |
| Rows.NatStr | phylo_parser/main.py:199 | the decimal text of an index is non-empty and ends in a digit |
| Rows.EndsWithId | phylo_parser/main.py:321 | the column names ending in "_ID" are exactly the organism, locator and Variable id columns |
| Rows.LastCharNotD | phylo_parser/main.py:321 | every other column name ends in something other than `D` |
| Rows.Cell | phylo_parser/main.py:214 | a column the row lacks reads "" (`fillna("")`) |
| Rows.CellAt | phylo_parser/main.py:212 | in a row with distinct columns, a column's cell is the value zipped with it |
| Rows.Zip | phylo_parser/main.py:212 | reference definition: `dict(zip(keys, vals))` pairs keys and values by position, as many as the shorter list has |
| Rows.LocatorKeys | phylo_parser/main.py:198-199 | two locator keys per locator |
| Rows.LocatorKeysAt | phylo_parser/main.py:198-199 | locator i's label and id keys sit at positions 2i-2 and 2i-1 |
| Rows.LocatorKeysPos | phylo_parser/main.py:198-199 | every locator key names a locator 1..m |
| Rows.CharKeys | phylo_parser/main.py:196-200 | n entries give 2n+1 keys (n >= 2); fewer give 5 |
| Rows.EntryCells | phylo_parser/main.py:203-207 | two values per entry: the Variable list's label and id, or the key and its id |
| Rows.BuildCharRow | phylo_parser/main.py:194-212 | the loops build the char row: the keys zipped with the values and the Variable comment |
| Rows.CharRowLength | phylo_parser/main.py:202-210 | the char row has two cells per entry and the comment |
| Rows.CharKeysDistinct | phylo_parser/main.py:196-200 | the keys are pairwise distinct |
| Rows.CharRowDistinct | phylo_parser/main.py:212 | a char row has no repeated column |
| Rows.CharRowOrganism | phylo_parser/main.py:197 | the organism columns hold the first entry: its key and id, or the Variable label and id when the Variable comes first |
| Rows.CharRowLocator | phylo_parser/main.py:198-207 | Locator_i holds the entry at position i, whatever it is |
| Rows.CharRowVariable | phylo_parser/main.py:200-210 | the Variable label and id columns hold the last entry, whether or not it is the Variable; the comment column holds the Variable list's comment |
| Rows.CharRowSingle | phylo_parser/main.py:196-212 | with one entry the row stops after three cells and the comment lands in Variable_label |
| Rows.CommentAsWritten | phylo_parser/main.py:209 | as written: reading `v[2]` fails only when the last entry is an id of at most two characters |
| Rows.CommentAsWrittenAgrees | phylo_parser/main.py:203-209 | when the Variable list is last, or absent, the code as written reads the right comment |
| Rows.CommentAsWrittenWrong | phylo_parser/main.py:203-209 | when the Variable list is not the last entry and the last entry is an id, the code as written reads that id's third character, or fails on an id shorter than three characters; the Variable list's own comment is the intended one |
| Rows.StateKeys | phylo_parser/main.py:224-225 | three state keys per state |
| Rows.StateKeysAt | phylo_parser/main.py:224-225 | state i's keys sit at positions 3i-3, 3i-2 and 3i-1 |
| Rows.StateKeysPos | phylo_parser/main.py:224-225 | every state key names a state 1..m |
| Rows.StateCells | phylo_parser/main.py:222-223 | `lst` holds label, id and token of each state, in order |
| Rows.BuildStateRow | phylo_parser/main.py:219-226 | the loop builds the state row: the state keys zipped with `lst` |
| Rows.StateRowDistinct | phylo_parser/main.py:226 | a state row has no repeated column |
| Rows.StateRowCell | phylo_parser/main.py:222-226 | state_label_i, state_ID_i and token_i hold the i-th state's label, id and token |
| Rows.StateRowPadding | phylo_parser/main.py:228 | past the last state, the padded cells read "", as the state CSV's `fillna("")` gives for records with at least one state; the model reads "" for a record without states too (see "## Left out") |
| Rows.RowKinds | phylo_parser/main.py:233 | the char row holds only char columns and the state row only state columns |
| Rows.FullRowCell | phylo_parser/main.py:233-234 | a full-row cell reads the char row, the state row or the tag, by column kind |
| Rows.CellAppend | phylo_parser/main.py:233 | a cell of two rows side by side reads the first row when it has the column |
| Rows.NotInTail | phylo_parser/main.py:233-234 | a char column is in neither the state row nor the tag |
| Json.NoneIfEmpty | phylo_parser/main.py:27-28 | null exactly for "", and the value otherwise |
| Json.LocatorNames | phylo_parser/main.py:268-269 | the locator labels are the keys other than "Variable" and the organism label |
| Json.LocatorNamesAppend | phylo_parser/main.py:268-269 | the filter keeps the order of the keys |
| Json.LocatorNamesKeepAll | phylo_parser/main.py:268-269 | keys that are neither "Variable" nor the organism label all pass |
| Json.LocatorObjs | phylo_parser/main.py:271-276 | reference definition: locator i (from 1) has its label and its id, or null |
| Json.StateObjs | phylo_parser/main.py:297-304 | reference definition: state i (from 0) has its label, its id or null, and its token, in state order |
| Json.BuildEntry | phylo_parser/main.py:252-311 | the loops build the entry of one character |
| Json.LocatorObjsStep | phylo_parser/main.py:271-276 | one more locator object appended |
| Json.StateObjsStep | phylo_parser/main.py:297-304 | one more state object appended |
| Json.EntryOrganism | phylo_parser/main.py:254-261 | the organism is the first entry's label and id, null when "" |
| Json.EntryVariable | phylo_parser/main.py:281-290 | a Variable object exists exactly when the statement is not neomorphic and has "Variable"; its comment appears exactly when the tag is complex, and then it is the list's non-empty comment |
| Json.EntryLocators | phylo_parser/main.py:268-276 | locators are numbered from 1 and are exactly the keys other than "Variable" and the organism label, each with its id or null |
| Json.LocatorObjsNames | phylo_parser/main.py:271-276 | the objects follow the labels, numbered from 1, each with its id or null |
| Json.EntryStates | phylo_parser/main.py:295-304 | the states are numbered from 0 and follow the state part: label, id or null, token |
| Json.EntryLocatorsMatchRow | phylo_parser/main.py:268-276 | with the organism first and the Variable last, JSON locator i carries the label and id of the table's Locator_i columns |
| Json.OrganismFirstTerm | phylo_parser/main.py:259 | when the first entry is a term, the organism label is its key |
| Json.LocatorCells | phylo_parser/main.py:198-207 | the Locator_i columns hold the i-th entry's key and id |
| Json.LocatorNamesUsual | phylo_parser/main.py:268-269 | organism first and "Variable" last: the locators are the keys in between, all terms |
| Json.GetAt | phylo_parser/main.py:272 | in a dict with unique keys, looking up the key at position i gives the value there |
| Missing.TableRows | phylo_parser/main.py:233-234 | reference definition: one full row per record, in the table's order |
| Missing.CollectMissing | phylo_parser/main.py:318-324 | the scan collects exactly the missing terms of the table |
| Missing.ScanRows | phylo_parser/main.py:319-324 | the loop over the rows collects what every row contributes |
| Missing.ScanRow | phylo_parser/main.py:320-324 | the loop over the columns adds what one row contributes to the set so far |
| Missing.RowMissingStep | phylo_parser/main.py:321-324 | one more column scanned adds its label exactly when it is flagged |
| Missing.MissingInStep | phylo_parser/main.py:319 | one more row scanned adds that row's labels |
| Missing.MissingTermsIff | phylo_parser/main.py:318-324 | a label is collected exactly when some row has "" in a scanned id column whose label column exists and holds that label |
| Missing.MissingInIff | phylo_parser/main.py:318-324 | the same, for the first k rows |
| Missing.ReportIn | phylo_parser/main.py:321-324 | a label a row reports is collected |
| Missing.ScannedAsWritten | phylo_parser/main.py:321 | as written, only the organism, locator and Variable id columns are scanned; the corrected scan adds the state id columns |
| Missing.AsWrittenSubset | phylo_parser/main.py:321 | scanning the state id columns too only adds labels |
| Missing.RowColumn | phylo_parser/main.py:320 | a column that a row has is a column of the table |
| Missing.ColumnRow | phylo_parser/main.py:320 | a column of the table comes from some row |
| Missing.StateColumns | phylo_parser/main.py:224-226 | a record with k states or more has state k's id and label columns |
| Missing.UnresolvedStateReported | phylo_parser/main.py:318-324 | with the state id columns scanned, every state whose id is "" has its label collected |
| Missing.NeomorphicReportsVariable | phylo_parser/main.py:181 | a neomorphic record whose parse had no Variable list ends in `"Variable": ""`, and the scan as written collects the word "Variable" |
| Missing.VariableCells | phylo_parser/main.py:203-210 | such a record's Variable columns read "Variable" and "" |
| Missing.VariableColumns | phylo_parser/main.py:200 | a record with two or more char entries has the Variable label and id columns |
| Missing.PaddingReportsEmpty | phylo_parser/main.py:214 | when one record has Locator_k and another fewer locators, the padded "" label is collected |
| Missing.ReportVia | phylo_parser/main.py:321-324 | any row's "" in a scanned column that some row holds with its label column reports that row's label |
| Missing.LocatorColumns | phylo_parser/main.py:198-199 | a record with k locator positions has the Locator_k columns |
| Missing.NoLocatorColumns | phylo_parser/main.py:214 | a record with fewer locator positions reads "" in Locator_k |
| Missing.AsWrittenIgnoresStates | phylo_parser/main.py:321 | as written, a table whose char ids all resolve reports nothing, however many state labels are unresolved |
| Missing.FixedReportsStates | phylo_parser/main.py:321 | in such a table an unresolved state label is missing from the as-written report and present in the corrected one |
| Missing.IdCellResolved | phylo_parser/main.py:321 | in such a table every organism, locator or Variable id cell is non-empty, padding included |
| Missing.CharColumnInCharRow | phylo_parser/main.py:233 | a char column of a full row comes from its char row |
| Missing.LocatorBound | phylo_parser/main.py:198 | a char row holds Locator_k only for 1 <= k <= n-2 |
| Missing.LocatorKeyBound | phylo_parser/main.py:198 | the keys of n entries name locators 1..n-2 only |
| Order.LessIrreflexive | phylo_parser/main.py:329 | no string sorts before itself |
| Order.LessTransitive | phylo_parser/main.py:329 | the string order is transitive |
| Order.LessTotal | phylo_parser/main.py:329 | two distinct strings are ordered exactly one way |
| Order.LeastExists | phylo_parser/main.py:329 | a non-empty set of strings has a least element |
| Order.SortedOfSpec | phylo_parser/main.py:329 | `sorted` of a set is strictly increasing and holds exactly the set's elements, once each |
| Order.SortedUnique | phylo_parser/main.py:329 | two strictly increasing lists with the same elements are equal, so the sorted order is unique |
| Order.InsertSpec | phylo_parser/main.py:329 | inserting a new string keeps the list increasing and adds exactly that string |
| Order.SortTerms | phylo_parser/main.py:329 | the terms come out as `sorted(missing)`: increasing, each term once |
| Pipeline.Results | phylo_parser/main.py:149-188 | reference definition: one parse result per line, in order |
| Pipeline.StoreFailure | phylo_parser/main.py:148-190 | a file succeeds only when every line does; a failing file fails at its first failing line with that line's error |
| Pipeline.Records | phylo_parser/main.py:190 | reference definition: the ids and records of the lines, in order |
| Pipeline.StoreAssignments | phylo_parser/main.py:190 | when every line parses, the table is the lines' assignments applied to an empty dict |
| Pipeline.StoreContents | phylo_parser/main.py:190 | a repeated character id keeps the position of its first line and takes the record of its last line; ids are unique |
| Pipeline.TablePut | phylo_parser/main.py:190 | storing a well-formed record keeps the table well formed |
| Pipeline.LinesWellFormed | phylo_parser/main.py:150-188 | every record a line yields is well formed |
| Pipeline.StoreWellFormed | phylo_parser/main.py:148-190 | every table a file yields is well formed |
| Pipeline.LineWithoutDot | phylo_parser/main.py:150 | a line without `.`, such as a blank line, fails with the first unpacking error |
| Pipeline.StoreStep | phylo_parser/main.py:190 | one more line either aborts the file or stores its record |
| Pipeline.PrefixFailure | phylo_parser/main.py:148-149 | once a line has failed, the lines after it do not change the outcome |
| Pipeline.ParseFile | phylo_parser/main.py:148-190 | the loop over the lines yields the file's table, or its first failing line and error |
| Pipeline.StoreLine | phylo_parser/main.py:149-190 | one iteration: the line aborts the file with its error, or its record is stored |
| Pipeline.EntriesOf | phylo_parser/main.py:250-311 | reference definition: one JSON entry per character, in the table's order |
| Pipeline.BuildEntries | phylo_parser/main.py:250-311 | the loop builds `final_json`, one entry per character in order |
| Pipeline.WriteReport | phylo_parser/main.py:326-330 | the report is the header "Missing term", then one line per term in the given order |
| Pipeline.ProcessFile | phylo_parser/main.py:140-330 | the file fails exactly when one of its lines fails to unpack, with that line's index and error; otherwise the outputs are the table, its rows, its entries and the sorted missing terms under the header |

## Left out

- Reading the YAML configuration and creating the output directories (lines 43-61) are file-system plumbing and are not modelled.
- Building the label tables from OWL ontologies with rdflib (lines 66-134) is left out. The four tables come in as parameters (`Statement.Tables`).
- The glob over the input directory and the per-file loop (lines 334-335), and the `print` calls, are not modelled. `phylo_parser/__init__.py` and `phylo_parser/__main__.py` hold no logic.
- The CSV and JSON bytes are not modelled: pandas' column order and layout, `json.dump` formatting, the order of keys in a JSON object. The model produces the rows, the entries and the report lines instead.
- The separate char-part and state-part CSV files (lines 214-215, 228-229) are not separate outputs. Their rows are `Rows.CharRow` and `Rows.StateRow`, and the full row holds both.
- The `loc_c` and `state_c` maxima (lines 239-248) are never used, so they are not modelled.
- Text.Lower: lower-cases ASCII letters only; Python's `str.lower` also maps non-ASCII letters.
- Patterns.DigitsEnd: `\d` is modelled as the ASCII digits; Python's `re` also accepts other Unicode decimal digits.
- Rows.BuildCharRow: the comment column reads the Variable list's own comment (the evident intent of line 209). The code as written, which can also raise IndexError, is `Rows.CommentAsWritten`; see Findings.
- Pipeline.ProcessFile: the missing-term scan includes the state id columns (`Missing.CollectMissing(tbl, true)`), the evident intent of line 321. The scan as written is `Missing.MissingTerms(tbl, false)`; see Findings.
- Pipeline.ProcessFile: an exception ends the whole run in Python. The model returns the failing line's index and error instead.
- Pipeline.ProcessFile: the char rows use the corrected comment of line 209 (`Rows.VariableComment`), so the IndexError the code as written raises there, after every line has parsed, is not a failure of the model. It happens when the Variable list is not the last char-part entry and the last entry's id has fewer than three characters; `Rows.CommentAsWritten` and `Rows.CommentAsWrittenWrong` model it.
- Pipeline.ProcessFile: a record without states is padded with `""` in the state columns of the full row. In the program, `pd.DataFrame.from_dict` (line 228) gives such a record no state row and the `concat` at line 233 is not followed by `fillna`, so its state cells are NaN. The scan as written skips state columns and the CSV prints NaN as empty, so nothing observable differs there; the corrected scan `Missing.CollectMissing(tbl, true)` does report `""` for such a record's padded `state_ID_i`, where `row[col] == ""` would be false on NaN.
- Pipeline.ProcessFile: `FileLines` assumes only what iterating a text file gives: a line break, if any, comes last in a line.
- `col.replace("_ID", "_label")` (line 322) is modelled on columns (`Rows.LabelColumn`). Each column name holds "_ID" at most once, so this agrees with the names.

## Findings

| source | as written | input that shows it | evidently intended | confidence | as-written member | corrected member |
|---|---|---|---|---|---|---|
| phylo_parser/main.py:209 | `comment = v[2]` reads `v`, the last value of the loop at lines 203-207, so it reads the last char-part entry rather than the Variable list | `1. head, seta [count], leg : short (0), long (1)`: "leg" follows the Variable, so the comment becomes the third character of leg's id, or the file aborts with IndexError when leg is unresolved (id "") | the Variable list's comment, "count" | not executed; high | Rows.CommentAsWrittenWrong | Rows.CharRowVariable |
| phylo_parser/main.py:321 | `col.endswith("_ID")` misses the state id columns, which are named `state_ID_<i>` | `1. head, eye : blue (0), red (1)` with head and eye resolved and "blue" not: the report as written is empty | every unresolved label, state labels included, is reported | not executed; medium | Missing.AsWrittenIgnoresStates | Missing.UnresolvedStateReported |
