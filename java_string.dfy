/**
 * The parts of java.lang.String that GradeList relies on:
 * `equalsIgnoreCase` (the key comparison of every operation) and `trim`
 * (the last step of `toString`), plus the 32-bit wrap-around of Java's `int`.
 */
module JavaString {

  /** Case folding of one character. Only the ASCII letters are folded. */
  function FoldChar(c: char): char {
    if 'A' <= c <= 'Z' then (c as int - 'A' as int + 'a' as int) as char else c
  }

  /** Folds every character of `s`. */
  function Fold(s: string): string {
    seq(|s|, i requires 0 <= i < |s| => FoldChar(s[i]))
  }

  /** `a.equalsIgnoreCase(b)`: the two strings agree once case is folded. */
  predicate EqualsIgnoreCase(a: string, b: string) {
    Fold(a) == Fold(b)
  }

  /** The comparison Java documents: same length, and the characters agree pairwise after folding. */
  lemma EqualsIgnoreCaseCharwise(a: string, b: string)
    ensures EqualsIgnoreCase(a, b) <==>
              |a| == |b| && forall i :: 0 <= i < |a| ==> FoldChar(a[i]) == FoldChar(b[i])
  {
    if EqualsIgnoreCase(a, b) {
      assert |a| == |Fold(a)| == |Fold(b)| == |b|;
      forall i | 0 <= i < |a| ensures FoldChar(a[i]) == FoldChar(b[i]) {
        assert Fold(a)[i] == Fold(b)[i];
      }
    }
    if |a| == |b| && forall i :: 0 <= i < |a| ==> FoldChar(a[i]) == FoldChar(b[i]) {
      assert forall i :: 0 <= i < |a| ==> Fold(a)[i] == Fold(b)[i];
    }
  }

  /** The characters `String.trim` strips: every code point up to and including the space. */
  predicate IsSpace(c: char) {
    c <= ' '
  }

  /** A string that `trim` leaves alone: non-empty, with no strippable character at either end. */
  predicate IsTrimmed(s: string) {
    |s| > 0 && !IsSpace(s[0]) && !IsSpace(s[|s| - 1])
  }

  /** How many characters `trim` strips from the front of `s`. */
  function LeadingSpaces(s: string): (k: nat)
    ensures k <= |s|
    ensures forall i :: 0 <= i < k ==> IsSpace(s[i])
    ensures k < |s| ==> !IsSpace(s[k])
  {
    if |s| > 0 && IsSpace(s[0]) then 1 + LeadingSpaces(s[1..]) else 0
  }

  /** Where the run of strippable characters at the end of `s` starts. */
  function TrailingStart(s: string): (k: nat)
    ensures k <= |s|
    ensures forall i :: k <= i < |s| ==> IsSpace(s[i])
    ensures k > 0 ==> !IsSpace(s[k - 1])
  {
    if |s| > 0 && IsSpace(s[|s| - 1]) then TrailingStart(s[..|s| - 1]) else |s|
  }

  /** `s.trim()`: strips leading and then trailing characters that are at most a space. */
  function Trim(s: string): (r: string)
    ensures r == [] || IsTrimmed(r)
    ensures r == [] <==> forall i :: 0 <= i < |s| ==> IsSpace(s[i])
    ensures IsTrimmed(s) ==> r == s
  {
    var a := LeadingSpaces(s);
    var rest := s[a..];
    var r := rest[..TrailingStart(rest)];
    assert r == [] ==> a == |s|;
    r
  }

  /** Trimming a trimmed string followed by one strippable character gives back that string. */
  lemma TrimDropsTrailingSpace(t: string, c: char)
    requires IsTrimmed(t) && IsSpace(c)
    ensures Trim(t + [c]) == t
  {
    var s := t + [c];
    assert LeadingSpaces(s) == 0;
    assert s[..|s| - 1] == t;
    assert TrailingStart(t) == |t|;
    assert TrailingStart(s) == |t|;
    assert s[0..][..|t|] == t;
  }

  const Int32Min: int := -0x8000_0000
  const Int32Modulus: int := 0x1_0000_0000

  /** Java `int` arithmetic: the value in [-2^31, 2^31) congruent to `x` modulo 2^32. */
  function Wrap32(x: int): (r: int)
    ensures Int32Min <= r < Int32Min + Int32Modulus
    ensures (x - r) % Int32Modulus == 0
  {
    (x - Int32Min) % Int32Modulus + Int32Min
  }
}
