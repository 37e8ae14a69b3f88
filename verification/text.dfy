/** String helpers the views rely on: ASCII versions of `toLowerCase` and `trim`,
    `startsWith`, `includes`, the last piece of `split(".")`, and the `<` order
    JavaScript uses between two strings. */
module Text {

  /** The white-space characters `String.prototype.trim` removes that this model
      knows about: the ASCII ones plus no-break space and the byte-order mark. */
  predicate IsSpace(c: char) {
    c == ' ' || c == '\t' || c == '\n' || c == '\r' || c == '\U{000B}' || c == '\U{000C}'
    || c == '\U{00A0}' || c == '\U{FEFF}'
  }

  predicate IsUpper(c: char) {
    'A' <= c <= 'Z'
  }

  function LowerChar(c: char): (r: char)
    ensures !IsUpper(r)
    ensures !IsUpper(c) ==> r == c
  {
    if IsUpper(c) then (c as int + 32) as char else c
  }

  /** `s.toLowerCase()` restricted to ASCII letters. */
  function Lower(s: string): (r: string)
    ensures |r| == |s|
    ensures forall i :: 0 <= i < |s| ==> r[i] == LowerChar(s[i])
  {
    seq(|s|, i requires 0 <= i < |s| => LowerChar(s[i]))
  }

  lemma LowerIdempotent(s: string)
    ensures Lower(Lower(s)) == Lower(s)
  {
  }

  /** `s.trimStart()`. */
  function TrimStart(s: string): (r: string)
    ensures |r| <= |s| && r == s[|s| - |r|..]
    ensures forall i :: 0 <= i < |s| - |r| ==> IsSpace(s[i])
    ensures |r| > 0 ==> !IsSpace(r[0])
  {
    if |s| > 0 && IsSpace(s[0]) then TrimStart(s[1..]) else s
  }

  /** `s.trimEnd()`. */
  function TrimEnd(s: string): (r: string)
    ensures |r| <= |s| && r == s[..|r|]
    ensures forall i :: |r| <= i < |s| ==> IsSpace(s[i])
    ensures |r| > 0 ==> !IsSpace(r[|r| - 1])
  {
    if |s| > 0 && IsSpace(s[|s| - 1]) then TrimEnd(s[..|s| - 1]) else s
  }

  /** `s.trim()`: the longest infix of `s` that neither starts nor ends with white space. */
  function Trim(s: string): (r: string)
    ensures Contains(s, r)
    ensures |r| > 0 ==> !IsSpace(r[0]) && !IsSpace(r[|r| - 1])
    ensures r == "" <==> forall i :: 0 <= i < |s| ==> IsSpace(s[i])
    ensures exists k :: BlankAround(s, r, k)
  {
    TrimFacts(s);
    TrimInfix(s);
    TrimEnd(TrimStart(s))
  }

  /** What trimming cuts off is white space: the result sits between a blank prefix
      and a blank suffix of the input. */
  lemma TrimInfix(s: string)
    ensures exists k :: BlankAround(s, TrimEnd(TrimStart(s)), k)
  {
    var t := TrimStart(s);
    var r := TrimEnd(t);
    var k := |s| - |t|;
    assert r == s[k..][..|r|];
    assert r == s[k..k + |r|];
    forall i | k + |r| <= i < |s| ensures IsSpace(s[i]) {
      assert s[i] == t[i - k];
    }
    assert BlankAround(s, r, k);
  }

  /** `r` occurs in `s` at `k`, and everything before and after it is white space. */
  predicate BlankAround(s: string, r: string, k: int) {
    && 0 <= k <= |s| - |r| && r == s[k..k + |r|]
    && (forall i :: 0 <= i < k ==> IsSpace(s[i]))
    && (forall i :: k + |r| <= i < |s| ==> IsSpace(s[i]))
  }

  lemma TrimFacts(s: string)
    ensures var r := TrimEnd(TrimStart(s));
      && Contains(s, r)
      && (|r| > 0 ==> !IsSpace(r[0]) && !IsSpace(r[|r| - 1]))
      && (r == "" <==> forall i :: 0 <= i < |s| ==> IsSpace(s[i]))
  {
    TrimContained(s);
    TrimEnds(s);
    TrimBlank(s);
  }

  lemma TrimContained(s: string)
    ensures Contains(s, TrimEnd(TrimStart(s)))
  {
    var t := TrimStart(s);
    var r := TrimEnd(t);
    assert r == s[|s| - |t|..][..|r|];
    assert OccursAt(s, r, |s| - |t|);
  }

  lemma TrimEnds(s: string)
    ensures var r := TrimEnd(TrimStart(s)); |r| > 0 ==> !IsSpace(r[0]) && !IsSpace(r[|r| - 1])
  {
    var t := TrimStart(s);
    var r := TrimEnd(t);
    if |r| > 0 {
      assert r[0] == t[0];
    }
  }

  lemma TrimBlank(s: string)
    ensures TrimEnd(TrimStart(s)) == "" <==> forall i :: 0 <= i < |s| ==> IsSpace(s[i])
  {
    var t := TrimStart(s);
    var r := TrimEnd(t);
    SpaceSplit(s, |s| - |t|);
  }

  /** A string is all white space when both sides of any split are. */
  lemma SpaceSplit(s: string, k: nat)
    requires k <= |s|
    requires forall i :: 0 <= i < k ==> IsSpace(s[i])
    ensures (forall i :: 0 <= i < |s| ==> IsSpace(s[i])) <==> (forall i :: 0 <= i < |s| - k ==> IsSpace(s[k..][i]))
  {
    if forall i :: 0 <= i < |s| - k ==> IsSpace(s[k..][i]) {
      forall i | k <= i < |s| ensures IsSpace(s[i]) {
        assert s[i] == s[k..][i - k];
      }
    }
  }

  /** `s.startsWith(p)`. */
  predicate StartsWith(s: string, p: string) {
    |p| <= |s| && s[..|p|] == p
  }

  lemma StartsWithConcat(a: string, b: string)
    ensures StartsWith(a + b, a)
  {
    assert (a + b)[..|a|] == a;
  }

  /** A string cannot start with a prefix whose first character it does not have. */
  lemma FirstCharMismatch(s: string, p: string)
    requires |p| > 0 && (|s| == 0 || s[0] != p[0])
    ensures !StartsWith(s, p)
  {
    if |p| <= |s| {
      assert s[..|p|][0] == s[0];
    }
  }

  predicate OccursAt(s: string, sub: string, k: int) {
    0 <= k && k + |sub| <= |s| && s[k..k + |sub|] == sub
  }

  /** `s.includes(sub)`: `sub` occurs somewhere in `s` as a contiguous piece. */
  predicate Contains(s: string, sub: string) {
    exists k | 0 <= k <= |s| - |sub| :: OccursAt(s, sub, k)
  }

  /** A piece with a character that `s` lacks cannot occur in `s`. */
  lemma MissingCharNotContained(s: string, sub: string, c: char)
    requires c in sub && c !in s
    ensures !Contains(s, sub)
  {
    forall k | 0 <= k <= |s| - |sub| ensures !OccursAt(s, sub, k) {
      var j :| 0 <= j < |sub| && sub[j] == c;
      assert s[k..k + |sub|][j] == s[k + j];
    }
  }

  lemma ContainsMiddle(a: string, b: string, c: string)
    ensures Contains(a + b + c, b)
  {
    assert (a + b + c)[|a|..|a| + |b|] == b;
    assert OccursAt(a + b + c, b, |a|);
  }

  /** The last element of `s.split(sep)`: the text after the last `sep`, or all of
      `s` when `sep` does not occur in it. */
  function AfterLast(s: string, sep: char): (r: string)
    ensures |r| <= |s| && r == s[|s| - |r|..]
    ensures sep !in r
    ensures |r| < |s| ==> s[|s| - |r| - 1] == sep
  {
    if |s| == 0 then ""
    else if s[|s| - 1] == sep then ""
    else
      var prefix := AfterLast(s[..|s| - 1], sep);
      AfterLastStep(s, sep, prefix);
      prefix + [s[|s| - 1]]
  }

  /** The text after the last `sep` grows by a last character that is not `sep`. */
  lemma AfterLastStep(s: string, sep: char, prefix: string)
    requires |s| > 0 && s[|s| - 1] != sep
    requires |prefix| <= |s| - 1 && prefix == s[..|s| - 1][|s| - 1 - |prefix|..] && sep !in prefix
    requires |prefix| < |s| - 1 ==> s[..|s| - 1][|s| - 1 - |prefix| - 1] == sep
    ensures var r := prefix + [s[|s| - 1]];
      && |r| <= |s| && r == s[|s| - |r|..] && sep !in r
      && (|r| < |s| ==> s[|s| - |r| - 1] == sep)
  {
    assert s[..|s| - 1][|s| - 1 - |prefix|..] + [s[|s| - 1]] == s[|s| - 1 - |prefix|..];
  }

  /** `a < b` between two JavaScript strings: lexicographic on characters, a proper
      prefix coming first. */
  predicate Less(a: string, b: string)
    decreases |a|
  {
    if |a| == 0 then |b| > 0
    else if |b| == 0 then false
    else if a[0] != b[0] then a[0] < b[0]
    else Less(a[1..], b[1..])
  }

  lemma {:induction false} LessIrreflexive(a: string)
    ensures !Less(a, a)
    decreases |a|
  {
    if |a| > 0 {
      LessIrreflexive(a[1..]);
    }
  }

  lemma {:induction false} LessTransitive(a: string, b: string, c: string)
    requires Less(a, b) && Less(b, c)
    ensures Less(a, c)
    decreases |a|
  {
    if |a| > 0 && a[0] == b[0] && b[0] == c[0] {
      LessTransitive(a[1..], b[1..], c[1..]);
    }
  }

  lemma {:induction false} LessTotal(a: string, b: string)
    requires a != b
    ensures Less(a, b) || Less(b, a)
    decreases |a|
  {
    if |a| > 0 && |b| > 0 && a[0] == b[0] {
      assert a == [a[0]] + a[1..] && b == [b[0]] + b[1..];
      LessTotal(a[1..], b[1..]);
    }
  }

  lemma LessAsymmetric(a: string, b: string)
    requires Less(a, b)
    ensures !Less(b, a)
  {
    if Less(b, a) {
      LessTransitive(a, b, a);
      LessIrreflexive(a);
    }
  }
}
