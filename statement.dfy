/** One line of a character file, `<id>. <char tokens> : <label> (<token>), ...`,
    parsed into its character part, its state part and its statement tag
    (phylo_parser/main.py, the body of the line loop of process_character_file). */
module Statement {
  import opened Wrappers
  import opened Text
  import opened Dicts
  import opened Patterns

  /** The four label tables built from the ontologies: entity labels and entity
      synonyms, quality (PATO) labels and quality synonyms, each to an ontology URI. */
  datatype Tables = Tables(
    ent: map<string, string>,
    syn: map<string, string>,
    pato: map<string, string>,
    patoSyn: map<string, string>)

  /** A value of the character part: the URI of an entity, or the Variable list
      [label, URI, comment]. The neomorphic override stores the plain string "" under
      "Variable", which is `Term("")`. */
  datatype CharValue = Term(uri: string) | Var(name: string, uri: string, comment: string)

  /** A value of the state part: the one-entry dict {label: URI}. */
  datatype StateValue = StateValue(name: string, uri: string)

  datatype Tag = Neomorphic | Complex | Simple

  /** The tag as written in the outputs. */
  function TagName(tag: Tag): (name: string)
    ensures name in {"neomorphic", "transformational_complex", "transformational_simple"}
  {
    match tag
    case Neomorphic => "neomorphic"
    case Complex => "transformational_complex"
    case Simple => "transformational_simple"
  }

  lemma TagNameInjective(a: Tag, b: Tag)
    ensures TagName(a) == TagName(b) <==> a == b
  {
  }

  /** The parsed statement: `{"char_part": ..., "state_part": ..., "tag": ...}`. */
  datatype Record = Record(charPart: Dict<CharValue>, statePart: Dict<StateValue>, tag: Tag)

  /** The ValueError raised when a line cannot be unpacked into two parts: no '.' after
      stripping the line, or no ':' in what follows the id. */
  datatype LineError = NoDot | NoColon

  const VariableKey: string := "Variable"

  /** `m.get(k, default)` */
  function Lookup(m: map<string, string>, k: string, default: string): string {
    if k in m then m[k] else default
  }

  /** `a or b` on strings: the empty string is false. */
  function Or(a: string, b: string): string {
    if a != "" then a else b
  }

  /** `ent_dict.get(x) or syn_dict.get(x, "")`: a non-empty primary URI, else the
      synonym URI, else "". */
  function EntityId(t: Tables, x: string): (r: string)
    ensures x in t.ent && t.ent[x] != "" ==> r == t.ent[x]
    ensures (x !in t.ent || t.ent[x] == "") ==> r == Lookup(t.syn, x, "")
    ensures r == "" <==> (x !in t.ent || t.ent[x] == "") && (x !in t.syn || t.syn[x] == "")
  {
    Or(Lookup(t.ent, x, ""), Lookup(t.syn, x, ""))
  }

  /** `ent_dict.get(label, label)`: no synonym lookup, and the label itself when the
      table has no entry. */
  function VariableId(t: Tables, name: string): (r: string)
    ensures name in t.ent ==> r == t.ent[name]
    ensures name !in t.ent ==> r == name
  {
    Lookup(t.ent, name, name)
  }

  /** `pato_dict.get(x) or pato_syn_dict.get(x, "")` */
  function StateId(t: Tables, x: string): (r: string)
    ensures x in t.pato && t.pato[x] != "" ==> r == t.pato[x]
    ensures (x !in t.pato || t.pato[x] == "") ==> r == Lookup(t.patoSyn, x, "")
    ensures r == "" <==> (x !in t.pato || t.pato[x] == "") && (x !in t.patoSyn || t.patoSyn[x] == "")
  {
    Or(Lookup(t.pato, x, ""), Lookup(t.patoSyn, x, ""))
  }

  // ---------------------------------------------------------------------------
  // Character part
  // ---------------------------------------------------------------------------

  /** `[w.strip().lower() for w in char_text.split(",")]` */
  function CharTokens(charText: string): (toks: seq<string>)
    ensures |toks| == |Split(charText, ',')|
    ensures forall i :: 0 <= i < |toks| ==> toks[i] == Lower(Strip(Split(charText, ',')[i]))
  {
    var parts := Split(charText, ',');
    seq(|parts|, i requires 0 <= i < |parts| => Lower(Strip(parts[i])))
  }

  /** A text without line breaks gives tokens without line breaks. */
  lemma CharTokensNoBreak(charText: string)
    requires '\n' !in charText
    ensures forall i :: 0 <= i < |CharTokens(charText)| ==> '\n' !in CharTokens(charText)[i]
  {
    var parts := Split(charText, ',');
    forall i | 0 <= i < |parts| ensures '\n' !in Lower(Strip(parts[i])) {
      assert parts[i] in parts;
      StripChars(parts[i]);
      LowerNoBreak(Strip(parts[i]));
    }
  }

  lemma LowerNoBreak(s: string)
    requires '\n' !in s
    ensures '\n' !in Lower(s)
  {
    forall k | 0 <= k < |s| ensures Lower(s)[k] != '\n' {
      assert s[k] in s;
    }
  }

  /** Lower-casing leaves no 'V' in first place, so no token is the key "Variable". */
  lemma TokenNotVariableKey(charText: string)
    ensures forall i :: 0 <= i < |CharTokens(charText)| ==> CharTokens(charText)[i] != VariableKey
  {
    forall i | 0 <= i < |CharTokens(charText)| ensures CharTokens(charText)[i] != VariableKey {
      var tok := CharTokens(charText)[i];
      if |tok| > 0 {
        assert tok[0] != 'V';
      }
    }
  }

  /** The assignment one token makes: a `label [comment]` token to "Variable", with the
      stripped label, its id and the stripped comment; any other token to itself. */
  function CharEntry(t: Tables, tok: string): (e: (string, CharValue))
    requires '\n' !in tok
    ensures e.1.Var? <==> MatchVariable(tok).Some?
    ensures e.1.Var? ==> e.0 == VariableKey
    ensures e.1.Term? ==> e == (tok, Term(EntityId(t, tok)))
  {
    match MatchVariable(tok)
    case Some((lab, comment)) =>
      var l := Strip(lab);
      (VariableKey, Var(l, VariableId(t, l), Strip(comment)))
    case None => (tok, Term(EntityId(t, tok)))
  }

  function CharEntries(t: Tables, toks: seq<string>): (es: seq<(string, CharValue)>)
    requires forall i :: 0 <= i < |toks| ==> '\n' !in toks[i]
    ensures |es| == |toks|
    ensures forall i :: 0 <= i < |toks| ==> es[i] == CharEntry(t, toks[i])
  {
    seq(|toks|, i requires 0 <= i < |toks| => CharEntry(t, toks[i]))
  }

  /** The assignments the tokens of a char text make, in order. */
  function CharEntriesOf(t: Tables, charText: string): (es: seq<(string, CharValue)>)
    requires '\n' !in charText
    ensures |es| == |CharTokens(charText)|
  {
    CharTokensNoBreak(charText);
    CharEntries(t, CharTokens(charText))
  }

  /** The character part the loop over the tokens builds. */
  function CharPartOf(t: Tables, charText: string): Dict<CharValue>
    requires '\n' !in charText
  {
    PutAll([], CharEntriesOf(t, charText))
  }

  /** Lines 153-167: the loop that fills `char_text_d`. */
  method ParseCharPart(t: Tables, charText: string) returns (d: Dict<CharValue>)
    requires '\n' !in charText
    ensures d == CharPartOf(t, charText)
  {
    var toks := CharTokens(charText);
    CharTokensNoBreak(charText);
    ghost var es := CharEntriesOf(t, charText);
    d := [];
    for i := 0 to |toks|
      invariant d == PutAll([], es[..i])
    {
      var tok := toks[i];
      var m := MatchVariable(tok);
      if m.Some? {
        var name := Strip(m.value.0);
        d := Put(d, VariableKey, Var(name, VariableId(t, name), Strip(m.value.1)));
      } else {
        d := Put(d, tok, Term(EntityId(t, tok)));
      }
      PutAllStep([], es, i);
    }
    assert es[..|toks|] == es;
  }

  /** The keys of the character part are the tokens' keys, each once, at its first
      assignment. */
  lemma CharPartKeys(t: Tables, charText: string)
    requires '\n' !in charText
    ensures Keys(CharPartOf(t, charText)) == Dedup(Keys(CharEntriesOf(t, charText)))
    ensures UniqueKeys(CharPartOf(t, charText))
  {
    PutAllKeys(CharEntriesOf(t, charText));
  }

  /** "Variable" holds the list of the last `label [comment]` token, and is absent when
      no token has that form. */
  lemma CharPartVariable(t: Tables, charText: string)
    requires '\n' !in charText
    ensures Get(CharPartOf(t, charText), VariableKey) == LastValue(CharEntriesOf(t, charText), VariableKey)
    ensures Get(CharPartOf(t, charText), VariableKey).Some? <==>
      exists i :: 0 <= i < |CharTokens(charText)| && CharEntriesOf(t, charText)[i].1.Var?
  {
    CharTokensNoBreak(charText);
    var toks := CharTokens(charText);
    var es := CharEntriesOf(t, charText);
    TokenNotVariableKey(charText);
    forall i | 0 <= i < |es| ensures es[i].0 == VariableKey <==> es[i].1.Var? {
      assert es[i] == CharEntry(t, toks[i]);
    }
    PutAllGet([], es, VariableKey);
    LastValueKey(es, VariableKey);
  }

  /** Any other token is stored under itself with its entity id, whatever its position
      and however often it repeats. */
  lemma CharPartTerm(t: Tables, charText: string, i: nat)
    requires '\n' !in charText
    requires i < |CharTokens(charText)| && CharEntriesOf(t, charText)[i].1.Term?
    ensures var tok := CharTokens(charText)[i];
      Get(CharPartOf(t, charText), tok) == Some(Term(EntityId(t, tok)))
  {
    CharTokensNoBreak(charText);
    var toks := CharTokens(charText);
    var tok := toks[i];
    var es := CharEntriesOf(t, charText);
    TokenNotVariableKey(charText);
    forall j | 0 <= j < |es| && es[j].0 == tok ensures es[j].1 == Term(EntityId(t, tok)) {
      assert es[j] == CharEntry(t, toks[j]);
    }
    assert Keys(es)[i] == tok;
    LastValueUniform(es, tok, Term(EntityId(t, tok)));
    PutAllGet([], es, tok);
  }

  lemma {:induction false} LastValueKey<V>(kvs: seq<(string, V)>, k: string)
    ensures LastValue(kvs, k).Some? <==> exists i :: 0 <= i < |kvs| && kvs[i].0 == k
  {
    if kvs != [] {
      var n := |kvs| - 1;
      LastValueKey(kvs[..n], k);
      assert forall i :: 0 <= i < n ==> kvs[..n][i] == kvs[i];
    }
  }

  // ---------------------------------------------------------------------------
  // State part
  // ---------------------------------------------------------------------------

  /** The assignments `state_dict[token] = {label: id}` of the matches, in order. */
  function StateEntries(t: Tables, ms: seq<(string, string)>): (es: seq<(string, StateValue)>)
    ensures |es| == |ms|
    ensures forall i :: 0 <= i < |ms| ==>
      es[i] == (ms[i].1, StateValue(ms[i].0, StateId(t, ms[i].0)))
  {
    seq(|ms|, i requires 0 <= i < |ms| => (ms[i].1, StateValue(ms[i].0, StateId(t, ms[i].0))))
  }

  function StatePartOf(t: Tables, stateText: string): Dict<StateValue> {
    PutAll([], StateEntries(t, FindStates(stateText, 0)))
  }

  /** Lines 169-174: the loop that fills `state_dict`. */
  method ParseStatePart(t: Tables, stateText: string) returns (d: Dict<StateValue>)
    ensures d == StatePartOf(t, stateText)
  {
    var ms := FindStates(stateText, 0);
    ghost var es := StateEntries(t, ms);
    d := [];
    for i := 0 to |ms|
      invariant d == PutAll([], es[..i])
    {
      var (name, token) := ms[i];
      d := Put(d, token, StateValue(name, StateId(t, name)));
      PutAllStep([], es, i);
    }
    assert es[..|ms|] == es;
  }

  /** The state part is keyed by token in first-occurrence order; a repeated token keeps
      its place and takes the label of its last match. Every token is a run of digits
      and every label a non-empty text free of `( ) : ; "`. */
  lemma StatePartShape(t: Tables, stateText: string)
    ensures var ms := FindStates(stateText, 0);
      && Keys(StatePartOf(t, stateText)) == Dedup(Keys(StateEntries(t, ms)))
      && UniqueKeys(StatePartOf(t, stateText))
      && (forall tok :: Get(StatePartOf(t, stateText), tok) == LastValue(StateEntries(t, ms), tok))
    ensures forall i :: 0 <= i < |StatePartOf(t, stateText)| ==>
      var (tok, v) := StatePartOf(t, stateText)[i];
      WellFormedState((v.name, tok))
  {
    var ms := FindStates(stateText, 0);
    var es := StateEntries(t, ms);
    PutAllKeys(es);
    forall tok ensures Get(StatePartOf(t, stateText), tok) == LastValue(es, tok) {
      PutAllGet([], es, tok);
    }
    FindStatesWellFormed(stateText, 0);
    PutAllEntries(es);
  }

  // ---------------------------------------------------------------------------
  // Classification
  // ---------------------------------------------------------------------------

  predicate IsPresenceLabel(x: string) {
    x == "absent" || x == "present"
  }

  /** Some state is labelled "absent" or "present". */
  predicate MentionsPresence(sp: Dict<StateValue>) {
    exists i :: 0 <= i < |sp| && IsPresenceLabel(sp[i].1.name)
  }

  /** The tag of a non-neomorphic statement: complex when "Variable" holds a list with a
      non-empty comment. */
  function TransformationalTag(cp: Dict<CharValue>): (tag: Tag)
    ensures tag != Neomorphic
    ensures tag == Complex <==> HasComment(cp)
  {
    match Get(cp, VariableKey)
    case Some(v) => if v.Var? && v.comment != "" then Complex else Simple
    case None => Simple
  }

  /** "Variable" holds a list whose comment is not empty. */
  predicate HasComment(cp: Dict<CharValue>) {
    var v := Get(cp, VariableKey);
    v.Some? && v.value.Var? && v.value.comment != ""
  }

  /** Lines 178-188: tag the statement; a neomorphic one has "Variable" overwritten with
      "" (added at the end when there was none). */
  method Classify(cp: Dict<CharValue>, sp: Dict<StateValue>) returns (cp': Dict<CharValue>, tag: Tag)
    ensures tag == Neomorphic <==> MentionsPresence(sp)
    ensures tag == Neomorphic ==> cp' == Put(cp, VariableKey, Term(""))
    ensures tag != Neomorphic ==> cp' == cp && tag == TransformationalTag(cp)
  {
    var labels := seq(|sp|, i requires 0 <= i < |sp| => sp[i].1.name);
    var neo := false;
    for i := 0 to |labels|
      invariant neo <==> exists j :: 0 <= j < i && IsPresenceLabel(labels[j])
    {
      if IsPresenceLabel(labels[i]) {
        neo := true;
      }
    }
    if neo {
      var j :| 0 <= j < |labels| && IsPresenceLabel(labels[j]);
      assert IsPresenceLabel(sp[j].1.name);
      cp' := Put(cp, VariableKey, Term(""));
      tag := Neomorphic;
    } else {
      assert forall j :: 0 <= j < |sp| ==> sp[j].1.name == labels[j];
      cp' := cp;
      tag := TransformationalTag(cp);
    }
  }

  // ---------------------------------------------------------------------------
  // A whole line
  // ---------------------------------------------------------------------------

  /** A line as the file iteration yields it: a line break can only be its last
      character. */
  predicate FileLine(line: string) {
    forall k :: 0 <= k < |line| - 1 ==> line[k] != '\n'
  }

  lemma StripFileLine(line: string)
    requires FileLine(line)
    ensures '\n' !in Strip(line)
  {
    StripSpec(line);
    var a := SpaceRunEnd(line, 0, |line|);
    var b := SpaceRunStart(line, a, |line|);
    if a < b {
      assert b < |line| || line[|line| - 1] != '\n';
    }
    forall x | x in Strip(line) ensures x != '\n' {
      var k :| 0 <= k < b - a && Strip(line)[k] == x;
      assert x == line[a + k];
    }
  }

  /** The id, the char text and the state text of a line: `line.strip().split(".", 1)`,
      then `rest.strip().split(":", 1)`. */
  function SplitLine(line: string): (r: Result<(string, string, string), LineError>)
    ensures r.Failure? && r.error == NoDot <==> '.' !in Strip(line)
    ensures r.Failure? && r.error == NoColon <==>
      '.' in Strip(line) && ':' !in Strip(SplitOnce(Strip(line), '.').value.1)
    ensures r.Success? ==> var (id, charText, stateText) := r.value;
      && '.' !in id && ':' !in charText
      && exists rest :: Strip(line) == id + "." + rest && Strip(rest) == charText + ":" + stateText
  {
    match SplitOnce(Strip(line), '.')
    case None => Failure(NoDot)
    case Some((id, rest)) =>
      match SplitOnce(Strip(rest), ':')
      case None => Failure(NoColon)
      case Some((charText, stateText)) => Success((id, charText, stateText))
  }

  lemma SplitLineNoBreak(line: string)
    requires FileLine(line) && SplitLine(line).Success?
    ensures '\n' !in SplitLine(line).value.1
  {
    StripFileLine(line);
    var (id, rest) := SplitOnce(Strip(line), '.').value;
    StripChars(rest);
  }

  /** The record the line loop stores under the line's id. */
  function RecordOf(t: Tables, line: string): (r: Result<(string, Record), LineError>)
    requires FileLine(line)
    ensures r.Success? <==> SplitLine(line).Success?
    ensures r.Failure? ==> r.error == SplitLine(line).error
  {
    match SplitLine(line)
    case Failure(e) => Failure(e)
    case Success((id, charText, stateText)) =>
      SplitLineNoBreak(line);
      var cp := CharPartOf(t, charText);
      var sp := StatePartOf(t, stateText);
      if MentionsPresence(sp) then Success((id, Record(Put(cp, VariableKey, Term("")), sp, Neomorphic)))
      else Success((id, Record(cp, sp, TransformationalTag(cp))))
  }

  /** Lines 150-188: parse and tag one line; an unpacking error aborts the file. */
  method ParseLine(t: Tables, line: string) returns (r: Result<(string, Record), LineError>)
    requires FileLine(line)
    ensures r == RecordOf(t, line)
  {
    var split := SplitLine(line);
    if split.Failure? {
      return Failure(split.error);
    }
    var (id, charText, stateText) := split.value;
    SplitLineNoBreak(line);
    var cp := ParseCharPart(t, charText);
    var sp := ParseStatePart(t, stateText);
    var tag;
    cp, tag := Classify(cp, sp);
    r := Success((id, Record(cp, sp, tag)));
  }

  /** The Variable list is the only list value, and it only sits under "Variable". */
  predicate ListsUnderVariable(cp: Dict<CharValue>) {
    forall i :: 0 <= i < |cp| && cp[i].1.Var? ==> cp[i].0 == VariableKey
  }

  /** Whatever "Variable" holds is a list. */
  predicate VariableHoldsList(cp: Dict<CharValue>) {
    var v := Get(cp, VariableKey);
    v.Some? ==> v.value.Var?
  }

  /** The char part a char text gives has at least one entry, keeps lists under
      "Variable" and holds only a list there. */
  lemma CharPartShape(t: Tables, charText: string)
    requires '\n' !in charText
    ensures |CharPartOf(t, charText)| >= 1
    ensures ListsUnderVariable(CharPartOf(t, charText))
    ensures VariableHoldsList(CharPartOf(t, charText))
  {
    CharTokensNoBreak(charText);
    TokenNotVariableKey(charText);
    var toks := CharTokens(charText);
    var es := CharEntriesOf(t, charText);
    var cp := CharPartOf(t, charText);
    forall i | 0 <= i < |es| ensures es[i].0 == VariableKey <==> es[i].1.Var? {
      assert es[i] == CharEntry(t, toks[i]);
    }
    var n := |es| - 1;
    assert cp == Put(PutAll([], es[..n]), es[n].0, es[n].1);
    assert Keys(cp) != [];
    PutAllEntries(es);
    var v := Get(cp, VariableKey);
    if v.Some? {
      var i :| 0 <= i < |cp| && cp[i] == (VariableKey, v.value);
      assert cp[i] in es;
    }
    forall i | 0 <= i < |cp| && cp[i].1.Var? ensures cp[i].0 == VariableKey {
      assert cp[i] in es;
    }
  }

  /** The neomorphic override keeps lists under "Variable" only. */
  lemma OverrideLists(cp: Dict<CharValue>)
    requires ListsUnderVariable(cp)
    ensures ListsUnderVariable(Put(cp, VariableKey, Term("")))
    ensures |Put(cp, VariableKey, Term(""))| >= |cp|
  {
    var r := Put(cp, VariableKey, Term(""));
    forall i | 0 <= i < |r| && r[i].1.Var? ensures r[i].0 == VariableKey {
      PutEntry(cp, VariableKey, Term(""), i);
    }
  }

  /** What every parsed record satisfies: unique keys in both parts; at least one char
      entry, lists only under "Variable"; the tag agrees with the states and the
      Variable entry; a neomorphic record holds "" under "Variable", any other one holds
      a list there if anything. */
  predicate WellFormed(rec: Record) {
    && UniqueKeys(rec.charPart) && UniqueKeys(rec.statePart)
    && |rec.charPart| >= 1
    && ListsUnderVariable(rec.charPart)
    && (rec.tag != Neomorphic ==> VariableHoldsList(rec.charPart))
    && (rec.tag == Neomorphic <==> MentionsPresence(rec.statePart))
    && (rec.tag == Neomorphic ==> Get(rec.charPart, VariableKey) == Some(Term("")))
    && (rec.tag == Complex <==> rec.tag != Neomorphic && HasComment(rec.charPart))
  }

  lemma RecordWellFormed(t: Tables, line: string)
    requires FileLine(line) && RecordOf(t, line).Success?
    ensures WellFormed(RecordOf(t, line).value.1)
  {
    var (id, charText, stateText) := SplitLine(line).value;
    SplitLineNoBreak(line);
    CharPartKeys(t, charText);
    CharPartShape(t, charText);
    OverrideLists(CharPartOf(t, charText));
    StatePartShape(t, stateText);
  }
}
