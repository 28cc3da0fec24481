/** The string operations the parser applies: Python's `str.strip`, `str.lower`,
    `str.split(sep)` and `str.split(sep, 1)`, over strings as sequences of code points. */
module Text {
  import opened Wrappers

  /** The characters of Python's `str.isspace` (also the `\s` class of `re` on str patterns). */
  const Spaces: set<char> := {
    '\t', '\n', '\U{0B}', '\U{0C}', '\r', '\U{1C}', '\U{1D}', '\U{1E}', '\U{1F}', ' ',
    '\U{85}', '\U{A0}', '\U{1680}', '\U{2000}', '\U{2001}', '\U{2002}', '\U{2003}', '\U{2004}',
    '\U{2005}', '\U{2006}', '\U{2007}', '\U{2008}', '\U{2009}', '\U{200A}', '\U{2028}',
    '\U{2029}', '\U{202F}', '\U{205F}', '\U{3000}'
  }

  /** c is in Spaces. The membership sits behind one recursive step, which the
      verifier unfolds only on request, so that proofs which treat white space as an
      opaque class do not expand it into 29 cases. */
  predicate IsSpace(c: char) {
    SpaceAfter(c, 1)
  }

  predicate SpaceAfter(c: char, n: nat) {
    if n == 0 then c in Spaces else SpaceAfter(c, n - 1)
  }

  lemma IsSpaceIn(c: char)
    ensures IsSpace(c) <==> c in Spaces
  {
    assert SpaceAfter(c, 0) == (c in Spaces);
  }

  /** The `\d` class, on ASCII digits. */
  predicate IsDigit(c: char) {
    '0' <= c <= '9'
  }

  /** The end of the run of white space that starts at k, not going beyond e. */
  function SpaceRunEnd(s: string, k: nat, e: nat): (r: nat)
    requires k <= e <= |s|
    ensures k <= r <= e
    ensures forall i :: k <= i < r ==> IsSpace(s[i])
    ensures r < e ==> !IsSpace(s[r])
    decreases e - k
  {
    if k < e && IsSpace(s[k]) then SpaceRunEnd(s, k + 1, e) else k
  }

  /** The start of the run of white space that ends at e, not going below k. */
  function SpaceRunStart(s: string, k: nat, e: nat): (b: nat)
    requires k <= e <= |s|
    ensures k <= b <= e
    ensures forall i :: b <= i < e ==> IsSpace(s[i])
    ensures k < b ==> !IsSpace(s[b - 1])
    decreases e
  {
    if k < e && IsSpace(s[e - 1]) then SpaceRunStart(s, k, e - 1) else e
  }

  /** `s.strip()`: the text between the leading and the trailing run of white space. */
  function Strip(s: string): string {
    var a := SpaceRunEnd(s, 0, |s|);
    s[a..SpaceRunStart(s, a, |s|)]
  }

  /** What Strip leaves neither starts nor ends with white space, and everything it removes
      is white space. */
  lemma StripSpec(s: string)
    ensures var a := SpaceRunEnd(s, 0, |s|); var b := SpaceRunStart(s, a, |s|);
      && Strip(s) == s[a..b]
      && (forall i :: 0 <= i < a || b <= i < |s| ==> IsSpace(s[i]))
      && (Strip(s) == [] || (!IsSpace(Strip(s)[0]) && !IsSpace(Strip(s)[|Strip(s)| - 1])))
  {
  }

  /** The characterisation that fixes SpaceRunEnd. */
  lemma SpaceRunEndUnique(s: string, k: nat, e: nat, r: nat)
    requires k <= r <= e <= |s|
    requires forall i :: k <= i < r ==> IsSpace(s[i])
    requires r < e ==> !IsSpace(s[r])
    ensures SpaceRunEnd(s, k, e) == r
  {
  }

  lemma SpaceRunStartUnique(s: string, k: nat, e: nat, b: nat)
    requires k <= b <= e <= |s|
    requires forall i :: b <= i < e ==> IsSpace(s[i])
    requires k < b ==> !IsSpace(s[b - 1])
    ensures SpaceRunStart(s, k, e) == b
  {
  }

  /** s[a..b] is all white space. */
  predicate SpacesIn(s: string, a: nat, b: nat)
    requires a <= b <= |s|
  {
    forall i :: a <= i < b ==> IsSpace(s[i])
  }

  lemma StripChars(s: string)
    ensures forall x :: x in Strip(s) ==> x in s
  {
  }

  /** Strip(s) is s[a..b] when white space surrounds s[a..b] and s[a..b] neither starts
      nor ends with white space. */
  lemma StripIs(s: string, a: nat, b: nat)
    requires a <= b <= |s| && SpacesIn(s, 0, a) && SpacesIn(s, b, |s|)
    requires a < b ==> !IsSpace(s[a]) && !IsSpace(s[b - 1])
    ensures Strip(s) == s[a..b]
  {
    if a == b {
      SpaceRunEndUnique(s, 0, |s|, |s|);
    } else {
      SpaceRunEndUnique(s, 0, |s|, a);
      SpaceRunStartUnique(s, a, |s|, b);
    }
  }

  /** Cutting off some of the white space around s[x0..x1] does not change what Strip
      leaves of it. */
  lemma StripSpan(s: string, lo: nat, hi: nat, x0: nat, x1: nat)
    requires lo <= x0 <= x1 <= hi <= |s|
    requires SpacesIn(s, lo, x0) && SpacesIn(s, x1, hi)
    ensures Strip(s[x0..x1]) == Strip(s[lo..hi])
  {
    var y := s[x0..x1];
    var ya := SpaceRunEnd(y, 0, |y|);
    var yb := SpaceRunStart(y, ya, |y|);
    assert Strip(y) == y[ya..yb];
    assert ya < yb ==> !IsSpace(y[ya]);
    var m := s[lo..hi];
    SpanBounds(s, lo, hi, x0, x1, ya, yb);
    StripIs(m, x0 - lo + ya, x0 - lo + yb);
    SpanCore(s, lo, hi, x0, x1, ya, yb);
    assert Strip(m) == y[ya..yb];
  }

  lemma SpanBounds(s: string, lo: nat, hi: nat, x0: nat, x1: nat, ya: nat, yb: nat)
    requires lo <= x0 <= x1 <= hi <= |s|
    requires SpacesIn(s, lo, x0) && SpacesIn(s, x1, hi)
    requires ya <= yb <= x1 - x0
    requires SpacesIn(s[x0..x1], 0, ya) && SpacesIn(s[x0..x1], yb, x1 - x0)
    requires ya < yb ==> !IsSpace(s[x0..x1][ya]) && !IsSpace(s[x0..x1][yb - 1])
    ensures var m := s[lo..hi]; var a := x0 - lo + ya; var b := x0 - lo + yb;
      && a <= b <= |m| && SpacesIn(m, 0, a) && SpacesIn(m, b, |m|)
      && (a < b ==> !IsSpace(m[a]) && !IsSpace(m[b - 1]))
  {
    var m := s[lo..hi];
    var y := s[x0..x1];
    var d := x0 - lo;
    forall k | 0 <= k < d + ya || d + yb <= k < |m| ensures IsSpace(m[k]) {
      assert m[k] == s[lo + k];
      if d <= k < x1 - lo {
        assert y[k - d] == s[lo + k];
      }
    }
    if ya < yb {
      assert m[d + ya] == s[x0 + ya] == y[ya];
      assert m[d + yb - 1] == s[x0 + yb - 1] == y[yb - 1];
    }
  }

  lemma SpanCore(s: string, lo: nat, hi: nat, x0: nat, x1: nat, ya: nat, yb: nat)
    requires lo <= x0 <= x1 <= hi <= |s| && ya <= yb <= x1 - x0
    ensures s[lo..hi][x0 - lo + ya..x0 - lo + yb] == s[x0..x1][ya..yb]
  {
    var p := s[lo..hi][x0 - lo + ya..x0 - lo + yb];
    var q := s[x0..x1][ya..yb];
    assert |p| == |q|;
    forall k | 0 <= k < |p| ensures p[k] == q[k] {
      assert p[k] == s[x0 + ya + k] == q[k];
    }
  }

  /** `c.lower()` on ASCII letters. */
  function LowerChar(c: char): char {
    if 'A' <= c <= 'Z' then (c as int + 32) as char else c
  }

  /** `s.lower()` */
  function Lower(s: string): (r: string)
    ensures |r| == |s|
    ensures forall i :: 0 <= i < |s| ==> r[i] == LowerChar(s[i])
  {
    seq(|s|, i requires 0 <= i < |s| => LowerChar(s[i]))
  }

  /** Position of the first c in s at or after `from`, or -1. */
  function Find(s: string, c: char, from: nat): (r: int)
    requires from <= |s|
    ensures r == -1 || from <= r < |s|
    ensures r >= 0 ==> s[r] == c && forall k :: from <= k < r ==> s[k] != c
    ensures r < 0 <==> forall k :: from <= k < |s| ==> s[k] != c
    decreases |s| - from
  {
    if from == |s| then -1
    else if s[from] == c then from
    else
      Find(s, c, from + 1)
  }

  /** `s.split(c, 1)` unpacked into two parts: None when c does not occur. */
  function SplitOnce(s: string, c: char): (r: Option<(string, string)>)
    ensures r.None? <==> c !in s
    ensures r.Some? ==> s == r.value.0 + [c] + r.value.1 && c !in r.value.0
  {
    var i := Find(s, c, 0);
    if i < 0 then None
    else
      assert s == s[..i] + [c] + s[i + 1..];
      Some((s[..i], s[i + 1..]))
  }

  /** `sep.join(parts)` */
  function Join(parts: seq<string>, c: char): string
    requires parts != []
  {
    if |parts| == 1 then parts[0] else parts[0] + [c] + Join(parts[1..], c)
  }

  /** `s.split(c)` */
  function Split(s: string, c: char): (parts: seq<string>)
    ensures parts != []
    ensures forall p :: p in parts ==> c !in p
    ensures forall p, x :: p in parts && x in p ==> x in s
    decreases |s|
  {
    var i := Find(s, c, 0);
    if i < 0 then [s]
    else
      var rest := Split(s[i + 1..], c);
      assert forall x :: x in s[i + 1..] ==> x in s;
      assert forall x :: x in s[..i] ==> x in s;
      [s[..i]] + rest
  }

  /** Split and Join are inverse: joining the parts gives back the string. */
  lemma {:induction false} SplitJoin(s: string, c: char)
    ensures Join(Split(s, c), c) == s
    decreases |s|
  {
    var i := Find(s, c, 0);
    if i >= 0 {
      SplitJoin(s[i + 1..], c);
      assert s == s[..i] + [c] + s[i + 1..];
    }
  }

  lemma FindFirst(s: string, c: char, i: nat)
    requires i < |s| && s[i] == c && forall k :: 0 <= k < i ==> s[k] != c
    ensures Find(s, c, 0) == i
  {
  }

  /** ... and the parts are the only separator-free parts that join to s. */
  lemma {:induction false} JoinSplit(parts: seq<string>, c: char)
    requires parts != []
    requires forall p :: p in parts ==> c !in p
    ensures Split(Join(parts, c), c) == parts
  {
    var s := Join(parts, c);
    if |parts| == 1 {
      assert forall k :: 0 <= k < |s| ==> s[k] in parts[0];
    } else {
      var tail := Join(parts[1..], c);
      assert s == parts[0] + [c] + tail;
      assert forall k :: 0 <= k < |parts[0]| ==> s[k] == parts[0][k] && parts[0][k] in parts[0];
      FindFirst(s, c, |parts[0]|);
      assert s[|parts[0]| + 1..] == tail;
      assert s[..|parts[0]|] == parts[0];
      JoinSplit(parts[1..], c);
      assert parts == [parts[0]] + parts[1..];
    }
  }
}
