/** The two regular expressions of the line parser, written as explicit matchers:
    the Variable token `^(.+?)\s*\[\s*(.+?)\s*\]$` (re.match) and the state pattern
    `\s*([^\(\):;"]+?)\s*\((\d+)\)` (re.findall). Each matcher is proved against a
    declarative description of the decompositions the pattern accepts, and the
    groups it returns are those of the first decomposition a backtracking matcher
    reaches (lazy groups as short as possible, greedy `\s*` as long as possible). */
module Patterns {
  import opened Wrappers
  import opened Text

  // ---------------------------------------------------------------------------
  // A lazy group between two `\s*`
  // ---------------------------------------------------------------------------

  /** The bounds of the group in `\s*(.+?)\s*` when it must span s[lo..hi]: the text
      less its leading and trailing white space, or its last character when it is all
      white space. */
  function CoreIn(s: string, lo: nat, hi: nat): (r: (nat, nat))
    requires lo < hi <= |s|
    ensures lo <= r.0 < r.1 <= hi
    ensures SpacesIn(s, lo, r.0) && SpacesIn(s, r.1, hi)
  {
    var a := SpaceRunEnd(s, lo, hi);
    if a == hi then (hi - 1, hi) else (a, SpaceRunStart(s, a, hi))
  }

  /** CoreIn is the first decomposition in backtracking order: no other has a longer
      leading white-space run, and none with the same leading run has a shorter group. */
  lemma CoreInFirst(s: string, lo: nat, hi: nat, x0: nat, x1: nat)
    requires lo <= x0 < x1 <= hi <= |s|
    requires SpacesIn(s, lo, x0) && SpacesIn(s, x1, hi)
    ensures x0 <= CoreIn(s, lo, hi).0
    ensures x0 == CoreIn(s, lo, hi).0 ==> CoreIn(s, lo, hi).1 <= x1
  {
  }

  /** Stripping the group gives the same text as stripping the whole span. */
  lemma CoreInStrip(s: string, lo: nat, hi: nat, x0: nat, x1: nat)
    requires lo < hi <= |s| && (x0, x1) == CoreIn(s, lo, hi)
    ensures x0 <= x1 <= |s| && Strip(s[x0..x1]) == Strip(s[lo..hi])
  {
    StripSpan(s, lo, hi, x0, x1);
  }

  // ---------------------------------------------------------------------------
  // Variable token: `label [comment]`
  // ---------------------------------------------------------------------------

  /** One way `^(.+?)\s*\[\s*(.+?)\s*\]$` matches s: the label group s[..i] and the
      comment group s[c0..c1] are non-empty, '[' sits at p, ']' is the last character,
      and s[i..p], s[p+1..c0] and s[c1..|s|-1] are white space. */
  predicate VariableShape(s: string, i: nat, p: nat, c0: nat, c1: nat) {
    && 1 <= i <= p < c0 < c1 < |s|
    && s[p] == '[' && s[|s| - 1] == ']'
    && SpacesIn(s, i, p) && SpacesIn(s, p + 1, c0) && SpacesIn(s, c1, |s| - 1)
  }

  /** Where the lazy label group ends when the white space before '[' at p is taken
      by `\s*`: after the last non-space before p, but never before the first character. */
  function LabelEnd(s: string, p: nat): (i: nat)
    requires 1 <= p <= |s|
    ensures 1 <= i <= p && SpacesIn(s, i, p)
    ensures i == 1 || !IsSpace(s[i - 1])
  {
    var b := SpaceRunStart(s, 0, p);
    if b == 0 then 1 else b
  }

  /** The bounds (i, p, c0, c1) of the match of the Variable regex on s, if any. */
  function VariableBounds(s: string): (r: Option<(nat, nat, nat, nat)>)
    ensures r.Some? ==> VariableShape(s, r.value.0, r.value.1, r.value.2, r.value.3)
  {
    if s == [] || s[|s| - 1] != ']' then None
    else
      var p := Find(s, '[', 1);
      if p < 0 || p + 3 > |s| then None
      else
        var c := CoreIn(s, p + 1, |s| - 1);
        Some((LabelEnd(s, p), p, c.0, c.1))
  }

  /** `re.match(r"^(.+?)\s*\[\s*(.+?)\s*\]$", s)`: the label and comment groups.
      The tokens given to it never hold a line break, which `.` would refuse. */
  function MatchVariable(s: string): (r: Option<(string, string)>)
    requires '\n' !in s
    ensures r.Some? <==> VariableBounds(s).Some?
  {
    match VariableBounds(s)
    case None => None
    case Some((i, p, c0, c1)) => Some((s[..i], s[c0..c1]))
  }

  /** Every decomposition the regex admits makes the matcher succeed, and the one it
      returns comes first in backtracking order: the shortest label group, then the
      longest white space after '[', then the shortest comment group. */
  lemma VariableBoundsFirst(s: string, i: nat, p: nat, c0: nat, c1: nat)
    requires VariableShape(s, i, p, c0, c1)
    ensures VariableBounds(s).Some?
    ensures var (i', p', c0', c1') := VariableBounds(s).value;
      && i' <= i
      && (i' == i ==> p' == p && c0 <= c0' && (c0 == c0' ==> c1' <= c1))
  {
    var f := Find(s, '[', 1);
    assert 0 <= f <= p;
    var c := CoreIn(s, f + 1, |s| - 1);
    assert VariableBounds(s) == Some((LabelEnd(s, f), f, c.0, c.1));
    LabelEndFirst(s, i, p, f);
    if f == p {
      CoreInFirst(s, f + 1, |s| - 1, c0, c1);
    }
  }

  /** The label group ends no later than in any decomposition, and where it ends at
      the same place the '[' is the same. */
  lemma LabelEndFirst(s: string, i: nat, p: nat, f: nat)
    requires 1 <= i <= p < |s| && s[p] == '[' && SpacesIn(s, i, p)
    requires 1 <= f <= p && s[f] == '['
    ensures LabelEnd(s, f) <= i
    ensures LabelEnd(s, f) == i ==> f == p
  {
  }

  /** The first '[' after the first character: where the label ends. */
  predicate FirstBracket(s: string, p: nat) {
    1 <= p < |s| && s[p] == '[' && forall k :: 1 <= k < p ==> s[k] != '['
  }

  /** The regex matches exactly when the last character is ']' and the first '[' after
      the first character leaves room for a comment of at least one character. */
  lemma MatchVariableIff(s: string)
    requires '\n' !in s
    ensures MatchVariable(s).Some? <==>
      |s| >= 4 && s[|s| - 1] == ']' && exists p: nat :: FirstBracket(s, p) && p + 3 <= |s|
  {
    if MatchVariable(s).Some? {
      assert FirstBracket(s, VariableBounds(s).value.1);
    }
  }

  /** Stripped, the label group is the text before the first '[' and the comment group
      the text between it and the final ']'. */
  lemma MatchVariableStripped(s: string, p: nat)
    requires '\n' !in s
    requires MatchVariable(s).Some? && FirstBracket(s, p)
    ensures p + 3 <= |s|
    ensures Strip(MatchVariable(s).value.0) == Strip(s[..p])
    ensures Strip(MatchVariable(s).value.1) == Strip(s[p + 1..|s| - 1])
  {
    VariableBoundsBracket(s, p);
    MatchedLabel(s, p);
    MatchedComment(s, p);
  }

  lemma MatchedLabel(s: string, p: nat)
    requires '\n' !in s
    requires VariableBounds(s).Some? && VariableBounds(s).value.1 == p
    ensures Strip(MatchVariable(s).value.0) == Strip(s[..p])
  {
    var v := VariableBounds(s).value;
    assert MatchVariable(s).value.0 == s[..v.0];
    LabelStripped(s, v.0, p);
  }

  lemma MatchedComment(s: string, p: nat)
    requires '\n' !in s
    requires VariableBounds(s).Some? && VariableBounds(s).value.1 == p
    ensures Strip(MatchVariable(s).value.1) == Strip(s[p + 1..|s| - 1])
  {
    var v := VariableBounds(s).value;
    VariableBoundsCore(s);
    CoreInStrip(s, p + 1, |s| - 1, v.2, v.3);
  }

  /** The comment group of a match is the core of the text between '[' and ']'. */
  lemma VariableBoundsCore(s: string)
    requires VariableBounds(s).Some?
    ensures var v := VariableBounds(s).value;
      v.1 + 1 < |s| - 1 && (v.2, v.3) == CoreIn(s, v.1 + 1, |s| - 1)
  {
  }

  lemma VariableBoundsBracket(s: string, p: nat)
    requires VariableBounds(s).Some? && FirstBracket(s, p)
    ensures VariableBounds(s).value.1 == p
    ensures VariableBounds(s).value.2 == CoreIn(s, p + 1, |s| - 1).0
    ensures VariableBounds(s).value.3 == CoreIn(s, p + 1, |s| - 1).1
  {
    FindFirstFrom(s, '[', 1, p);
  }

  lemma LabelStripped(s: string, i: nat, p: nat)
    requires 1 <= i <= p <= |s| && SpacesIn(s, i, p)
    ensures Strip(s[..i]) == Strip(s[..p])
  {
    StripSpan(s, 0, p, 0, i);
    assert s[0..i] == s[..i] && s[0..p] == s[..p];
  }

  lemma FindFirstFrom(s: string, c: char, from: nat, p: nat)
    requires from <= p < |s| && s[p] == c && forall k :: from <= k < p ==> s[k] != c
    ensures Find(s, c, from) == p
  {
  }

  // ---------------------------------------------------------------------------
  // States: `label (digits)`
  // ---------------------------------------------------------------------------

  /** The class `[^\(\):;"]` of the state label. */
  predicate InLabelClass(c: char) {
    c != '(' && c != ')' && c != ':' && c != ';' && c != '"'
  }

  predicate LabelClassIn(s: string, a: nat, b: nat)
    requires a <= b <= |s|
  {
    forall k :: a <= k < b ==> InLabelClass(s[k])
  }

  predicate DigitsIn(s: string, a: nat, b: nat)
    requires a <= b <= |s|
  {
    forall k :: a <= k < b ==> IsDigit(s[k])
  }

  /** The end of the run of label-class characters that starts at k. */
  function ClassEnd(s: string, k: nat): (q: nat)
    requires k <= |s|
    ensures k <= q <= |s| && LabelClassIn(s, k, q)
    ensures q < |s| ==> !InLabelClass(s[q])
    decreases |s| - k
  {
    if k < |s| && InLabelClass(s[k]) then ClassEnd(s, k + 1) else k
  }

  /** The end of the run of digits that starts at k. */
  function DigitsEnd(s: string, k: nat): (r: nat)
    requires k <= |s|
    ensures k <= r <= |s| && DigitsIn(s, k, r)
    ensures r < |s| ==> !IsDigit(s[r])
    decreases |s| - k
  {
    if k < |s| && IsDigit(s[k]) then DigitsEnd(s, k + 1) else k
  }

  lemma ClassEndUnique(s: string, k: nat, q: nat)
    requires k <= q <= |s| && LabelClassIn(s, k, q) && (q < |s| ==> !InLabelClass(s[q]))
    ensures ClassEnd(s, k) == q
    decreases q - k
  {
  }

  lemma DigitsEndUnique(s: string, k: nat, r: nat)
    requires k <= r <= |s| && DigitsIn(s, k, r) && (r < |s| ==> !IsDigit(s[r]))
    ensures DigitsEnd(s, k) == r
    decreases r - k
  {
  }

  /** One way `\s*([^\(\):;"]+?)\s*\((\d+)\)` matches at j: white space s[j..a], the
      label group s[a..b] (non-empty, in the class), white space s[b..q], '(' at q, the
      token group s[q+1..r] (non-empty digits) and ')' at r. */
  predicate StateShape(s: string, j: nat, a: nat, b: nat, q: nat, r: nat) {
    && j <= a < b <= q && q + 1 < r < |s|
    && SpacesIn(s, j, a) && LabelClassIn(s, a, b) && SpacesIn(s, b, q)
    && s[q] == '(' && DigitsIn(s, q + 1, r) && s[r] == ')'
  }

  /** The bounds (a, b, q, r) of the match of the state pattern starting at j, if any. */
  function StateBoundsAt(s: string, j: nat): (m: Option<(nat, nat, nat, nat)>)
    requires j <= |s|
    ensures m.Some? ==> j <= m.value.0 < m.value.1 <= m.value.2 < m.value.3 < |s|
  {
    var q := ClassEnd(s, j);
    if q == j || q == |s| || s[q] != '(' then None
    else
      var r := DigitsEnd(s, q + 1);
      if r == q + 1 || r == |s| || s[r] != ')' then None
      else
        var c := CoreIn(s, j, q);
        Some((c.0, c.1, q, r))
  }

  /** What the matcher reports at j is a decomposition of the pattern. */
  lemma StateBoundsAtSound(s: string, j: nat)
    requires j <= |s| && StateBoundsAt(s, j).Some?
    ensures var (a, b, q, r) := StateBoundsAt(s, j).value; StateShape(s, j, a, b, q, r)
  {
  }

  lemma SpaceInLabelClass(c: char)
    requires IsSpace(c)
    ensures InLabelClass(c)
  {
    IsSpaceIn(c);
  }

  /** Every decomposition at j makes the matcher succeed at j, with the same '(' and
      token; its label group comes first in backtracking order. */
  lemma StateBoundsAtFirst(s: string, j: nat, a: nat, b: nat, q: nat, r: nat)
    requires StateShape(s, j, a, b, q, r)
    ensures StateBoundsAt(s, j).Some?
    ensures var (a', b', q', r') := StateBoundsAt(s, j).value;
      && q' == q && r' == r && a <= a' && (a == a' ==> b' <= b)
  {
    forall k | j <= k < q ensures InLabelClass(s[k]) {
      if k < a || b <= k {
        SpaceInLabelClass(s[k]);
      }
    }
    ClassEndUnique(s, j, q);
    DigitsEndUnique(s, q + 1, r);
    CoreInFirst(s, j, q, a, b);
  }

  /** `re.findall(pattern, s[j..])` as (label, token) pairs: a match resumes the scan
      after its ')', a failure one character further on. */
  function FindStates(s: string, j: nat): (ms: seq<(string, string)>)
    requires j <= |s|
    decreases |s| - j
  {
    if j == |s| then []
    else
      match StateBoundsAt(s, j)
      case None => FindStates(s, j + 1)
      case Some((a, b, q, r)) => [(s[a..b], s[q + 1..r])] + FindStates(s, r + 1)
  }

  /** A state label is non-empty and free of `( ) : ; "`; a token is a non-empty run
      of digits. */
  predicate WellFormedState(m: (string, string)) {
    && |m.0| > 0 && LabelClassIn(m.0, 0, |m.0|)
    && |m.1| > 0 && DigitsIn(m.1, 0, |m.1|)
  }

  lemma {:induction false} FindStatesWellFormed(s: string, j: nat)
    requires j <= |s|
    ensures forall k :: 0 <= k < |FindStates(s, j)| ==> WellFormedState(FindStates(s, j)[k])
    decreases |s| - j
  {
    if j < |s| {
      match StateBoundsAt(s, j)
      case None => FindStatesWellFormed(s, j + 1);
      case Some((a, b, q, r)) =>
        FindStatesWellFormed(s, r + 1);
        MatchWellFormed(s, j);
    }
  }

  lemma MatchWellFormed(s: string, j: nat)
    requires j <= |s| && StateBoundsAt(s, j).Some?
    ensures var (a, b, q, r) := StateBoundsAt(s, j).value;
      WellFormedState((s[a..b], s[q + 1..r]))
  {
    var (a, b, q, r) := StateBoundsAt(s, j).value;
    StateBoundsAtSound(s, j);
    var x := s[a..b];
    assert forall k :: 0 <= k < |x| ==> x[k] == s[a + k];
    var t := s[q + 1..r];
    assert forall k :: 0 <= k < |t| ==> t[k] == s[q + 1 + k];
  }

  /** A match that starts on a character other than white space keeps it in its label:
      the leading `\s*` takes nothing. */
  lemma LabelStartsAtScan(s: string, j: nat)
    requires j < |s| && StateBoundsAt(s, j).Some? && !IsSpace(s[j])
    ensures StateBoundsAt(s, j).value.0 == j
  {
  }

  /** The scan resumes right after a match's ')'. When a ',' separates two states, the
      second label therefore begins with that ',': "a (0), b (1)" gives the labels "a"
      and ", b". */
  lemma CommaStartsNextLabel(s: string, j: nat)
    requires j < |s| && StateBoundsAt(s, j).Some?
    requires var r := StateBoundsAt(s, j).value.3;
      r + 1 < |s| && s[r + 1] == ',' && StateBoundsAt(s, r + 1).Some?
    ensures |FindStates(s, j)| >= 2 && |FindStates(s, j)[1].0| > 0 && FindStates(s, j)[1].0[0] == ','
  {
    var r := StateBoundsAt(s, j).value.3;
    SecondLabel(s, r + 1);
    FindStatesTail(s, j);
    assert FindStates(s, j)[1] == FindStates(s, j)[1..][0];
  }

  /** After a match at j, the scan goes on from just past its ')'. */
  lemma FindStatesTail(s: string, j: nat)
    requires j < |s| && StateBoundsAt(s, j).Some?
    ensures |FindStates(s, j)| >= 1
    ensures FindStates(s, j)[1..] == FindStates(s, StateBoundsAt(s, j).value.3 + 1)
  {
    FindStatesMatch(s, j);
  }

  lemma SecondLabel(s: string, k: nat)
    requires k < |s| && s[k] == ',' && StateBoundsAt(s, k).Some?
    ensures |FindStates(s, k)| >= 1 && |FindStates(s, k)[0].0| > 0 && FindStates(s, k)[0].0[0] == ','
  {
    assert !IsSpace(',');
    LabelStartsAtScan(s, k);
    FindStatesMatch(s, k);
  }

  /** Where the pattern matches at j, the scan reports that match first. */
  lemma FindStatesMatch(s: string, j: nat)
    requires j < |s| && StateBoundsAt(s, j).Some?
    ensures var (a, b, q, r) := StateBoundsAt(s, j).value;
      FindStates(s, j) == [(s[a..b], s[q + 1..r])] + FindStates(s, r + 1)
  {
  }

  /** A string without '(' holds no state. */
  lemma {:induction false} FindStatesNone(s: string, j: nat)
    requires j <= |s| && forall k :: j <= k < |s| ==> s[k] != '('
    ensures FindStates(s, j) == []
    decreases |s| - j
  {
    if j < |s| {
      FindStatesNone(s, j + 1);
    }
  }
}
