/**
 * What a GradeList's operations do to its sequence of grades, as functions
 * on `seq<Grade>`, and the properties of those functions: the upsert of
 * `addGrade`, the `removeIf` of `removeGrade`, the first-match lookup of
 * `getGrade`, the rendering of `toString` and Java's `List.hashCode`.
 */
module GradeSeq {
  import opened JavaString
  import opened Grades

  /** The result of a lookup: `None` stands for Java's `null`. */
  datatype Option<+T> = None | Some(value: T)

  /** The invariant of a GradeList: no two entries have test names equal ignoring case. */
  ghost predicate UniqueNames(s: seq<Grade>) {
    forall i, j :: 0 <= i < j < |s| ==> !EqualsIgnoreCase(s[i].testName, s[j].testName)
  }

  // ---------------------------------------------------------------------------
  // removeGrade: drop every entry whose test name matches, ignoring case
  // ---------------------------------------------------------------------------

  /** The entries of `s` whose test name does not match `testName`, in their order in `s`. */
  function RemoveMatching(s: seq<Grade>, testName: string): seq<Grade> {
    if s == [] then []
    else (if NameMatches(s[0], testName) then [] else [s[0]]) + RemoveMatching(s[1..], testName)
  }

  /** The number of entries of `s` whose test name matches `testName`. */
  function CountMatching(s: seq<Grade>, testName: string): nat {
    if s == [] then 0
    else (if NameMatches(s[0], testName) then 1 else 0) + CountMatching(s[1..], testName)
  }

  /** Removal works piece by piece: this and the one-element case below determine it. */
  lemma {:induction false} RemoveMatchingAppend(a: seq<Grade>, b: seq<Grade>, testName: string)
    ensures RemoveMatching(a + b, testName) == RemoveMatching(a, testName) + RemoveMatching(b, testName)
  {
    if a == [] {
      assert a + b == b;
    } else {
      assert (a + b)[1..] == a[1..] + b;
      RemoveMatchingAppend(a[1..], b, testName);
    }
  }

  /** On one entry, removal drops it exactly when its name matches. */
  lemma RemoveMatchingSingle(g: Grade, testName: string)
    ensures RemoveMatching([g], testName) == if NameMatches(g, testName) then [] else [g]
  {
    assert [g][1..] == [];
  }

  /** Removal keeps every non-matching entry as often as it occurs, and no matching entry. */
  lemma {:induction false} RemoveMatchingContents(s: seq<Grade>, testName: string)
    ensures forall g :: multiset(RemoveMatching(s, testName))[g] ==
                          if NameMatches(g, testName) then 0 else multiset(s)[g]
  {
    if s != [] {
      RemoveMatchingContents(s[1..], testName);
      assert s == [s[0]] + s[1..];
    }
  }

  /** No entry left after removal matches the name removed. */
  lemma {:induction false} RemoveMatchingDropsAll(s: seq<Grade>, testName: string)
    ensures forall i :: 0 <= i < |RemoveMatching(s, testName)| ==>
                          !NameMatches(RemoveMatching(s, testName)[i], testName)
  {
    var r := RemoveMatching(s, testName);
    RemoveMatchingContents(s, testName);
    forall i | 0 <= i < |r| ensures !NameMatches(r[i], testName) {
      assert r[i] in multiset(r);
    }
  }

  /** Removal shortens the sequence by exactly the number of matching entries. */
  lemma {:induction false} RemoveMatchingLength(s: seq<Grade>, testName: string)
    ensures |RemoveMatching(s, testName)| == |s| - CountMatching(s, testName)
  {
    if s != [] {
      RemoveMatchingLength(s[1..], testName);
    }
  }

  /** Removal changes nothing when no entry matches. */
  lemma {:induction false} RemoveMatchingNoMatch(s: seq<Grade>, testName: string)
    requires forall i :: 0 <= i < |s| ==> !NameMatches(s[i], testName)
    ensures RemoveMatching(s, testName) == s
  {
    if s != [] {
      RemoveMatchingNoMatch(s[1..], testName);
      assert s == [s[0]] + s[1..];
    }
  }

  /** Removal depends on the name only up to case. */
  lemma {:induction false} RemoveMatchingIgnoresCase(s: seq<Grade>, t1: string, t2: string)
    requires EqualsIgnoreCase(t1, t2)
    ensures RemoveMatching(s, t1) == RemoveMatching(s, t2)
  {
    if s != [] {
      RemoveMatchingIgnoresCase(s[1..], t1, t2);
    }
  }

  /** Removing from a list that satisfies the invariant leaves one that satisfies it. */
  lemma {:induction false} RemoveMatchingKeepsUnique(s: seq<Grade>, testName: string)
    requires UniqueNames(s)
    ensures UniqueNames(RemoveMatching(s, testName))
  {
    if s != [] {
      var rest := RemoveMatching(s[1..], testName);
      RemoveMatchingKeepsUnique(s[1..], testName);
      RemoveMatchingContents(s[1..], testName);
      if !NameMatches(s[0], testName) {
        var r := [s[0]] + rest;
        forall i, j | 0 <= i < j < |r| ensures !EqualsIgnoreCase(r[i].testName, r[j].testName) {
          if i == 0 {
            assert r[j] == rest[j - 1];
            assert rest[j - 1] in multiset(rest);
            assert r[j] in s[1..];
            var k :| 0 <= k < |s[1..]| && s[1..][k] == r[j];
            assert s[k + 1] == r[j];
          } else {
            assert r[i] == rest[i - 1] && r[j] == rest[j - 1];
          }
        }
      }
    }
  }

  // ---------------------------------------------------------------------------
  // addGrade: removeGrade(grade.testName) followed by grades.add(grade)
  // ---------------------------------------------------------------------------

  /** The grades after `addGrade(g)`: every entry matching `g`'s name is dropped and `g` is appended. */
  function Upsert(s: seq<Grade>, g: Grade): seq<Grade> {
    RemoveMatching(s, g.testName) + [g]
  }

  /** After an upsert exactly one entry matches the new grade's name: the new grade, in last place. */
  lemma UpsertPlacesLast(s: seq<Grade>, g: Grade)
    ensures |Upsert(s, g)| > 0 && Upsert(s, g)[|Upsert(s, g)| - 1] == g
    ensures forall i :: 0 <= i < |Upsert(s, g)| ==>
                          (NameMatches(Upsert(s, g)[i], g.testName) <==> i == |Upsert(s, g)| - 1)
  {
    RemoveMatchingDropsAll(s, g.testName);
  }

  /** The new length is the old one, less the entries replaced, plus the new one. */
  lemma {:induction false} UpsertLength(s: seq<Grade>, g: Grade)
    ensures |Upsert(s, g)| == |s| - CountMatching(s, g.testName) + 1
  {
    RemoveMatchingLength(s, g.testName);
  }

  /**
   * An upsert touches no other test: with the key removed, the sequences before
   * and after are the same, so the other entries keep their relative order.
   */
  lemma UpsertKeepsOthers(s: seq<Grade>, g: Grade)
    ensures RemoveMatching(Upsert(s, g), g.testName) == RemoveMatching(s, g.testName)
    ensures forall h :: !NameMatches(h, g.testName) ==> multiset(Upsert(s, g))[h] == multiset(s)[h]
  {
    var r := RemoveMatching(s, g.testName);
    RemoveMatchingAppend(r, [g], g.testName);
    RemoveMatchingSingle(g, g.testName);
    RemoveMatchingDropsAll(s, g.testName);
    RemoveMatchingNoMatch(r, g.testName);
    RemoveMatchingContents(s, g.testName);
  }

  /** The last write wins: a second grade for the same test (in any case) replaces the first. */
  lemma UpsertLastWins(s: seq<Grade>, g1: Grade, g2: Grade)
    requires EqualsIgnoreCase(g1.testName, g2.testName)
    ensures Upsert(Upsert(s, g1), g2) == Upsert(s, g2)
  {
    var r := RemoveMatching(s, g1.testName);
    RemoveMatchingAppend(r, [g1], g2.testName);
    RemoveMatchingSingle(g1, g2.testName);
    RemoveMatchingIgnoresCase(s, g1.testName, g2.testName);
    RemoveMatchingDropsAll(s, g2.testName);
    RemoveMatchingNoMatch(r, g2.testName);
  }

  /** Adding the same grade twice leaves the same sequence as adding it once. */
  lemma UpsertIdempotent(s: seq<Grade>, g: Grade)
    ensures Upsert(Upsert(s, g), g) == Upsert(s, g)
  {
    UpsertLastWins(s, g, g);
  }

  /** `addGrade` preserves the invariant. */
  lemma UpsertKeepsUnique(s: seq<Grade>, g: Grade)
    requires UniqueNames(s)
    ensures UniqueNames(Upsert(s, g))
  {
    RemoveMatchingKeepsUnique(s, g.testName);
    RemoveMatchingDropsAll(s, g.testName);
  }

  // ---------------------------------------------------------------------------
  // getGrade / hasGrade: first match in list order
  // ---------------------------------------------------------------------------

  /** Some entry's name matches `testName`. */
  predicate HasMatch(s: seq<Grade>, testName: string) {
    exists i :: 0 <= i < |s| && NameMatches(s[i], testName)
  }

  /** Entry `i` is the first whose name matches `testName`. */
  predicate IsFirstMatch(s: seq<Grade>, testName: string, i: int) {
    0 <= i < |s| && NameMatches(s[i], testName) &&
    forall j :: 0 <= j < i ==> !NameMatches(s[j], testName)
  }

  /** The position of the first entry whose name matches `testName`, or `|s|` if none does. */
  function FirstMatch(s: seq<Grade>, testName: string): (k: nat)
    ensures k <= |s|
    ensures forall j :: 0 <= j < k ==> !NameMatches(s[j], testName)
    ensures k < |s| ==> NameMatches(s[k], testName)
  {
    if s == [] then 0
    else if NameMatches(s[0], testName) then 0
    else 1 + FirstMatch(s[1..], testName)
  }

  /** `getGrade(testName)`: the first entry whose name matches, or `None` if none does. */
  function Lookup(s: seq<Grade>, testName: string): (r: Option<Grade>)
    ensures r.None? <==> !HasMatch(s, testName)
    ensures r.Some? ==> r.value in s && NameMatches(r.value, testName)
    ensures forall i :: IsFirstMatch(s, testName, i) ==> r == Some(s[i])
  {
    var k := FirstMatch(s, testName);
    if k < |s| then Some(s[k]) else None
  }

  /** Under the invariant, whichever entry matches is the one found. */
  lemma LookupUnique(s: seq<Grade>, testName: string, i: int)
    requires UniqueNames(s) && 0 <= i < |s| && NameMatches(s[i], testName)
    ensures Lookup(s, testName) == Some(s[i])
  {
    assert IsFirstMatch(s, testName, i);
  }

  /** Looking up after a one-entry prefix. */
  lemma LookupCons(g: Grade, s: seq<Grade>, testName: string)
    ensures Lookup([g] + s, testName) == if NameMatches(g, testName) then Some(g) else Lookup(s, testName)
  {
    var t := [g] + s;
    if !NameMatches(g, testName) {
      var k := FirstMatch(s, testName);
      assert forall j :: 1 <= j < |t| ==> t[j] == s[j - 1];
      if k < |s| {
        assert IsFirstMatch(t, testName, k + 1);
      } else {
        assert !HasMatch(t, testName);
      }
    } else {
      assert IsFirstMatch(t, testName, 0);
    }
  }

  /** Removing one name does not change what a lookup of a different name finds. */
  lemma {:induction false} LookupRemoveOther(s: seq<Grade>, removed: string, testName: string)
    requires !EqualsIgnoreCase(removed, testName)
    ensures Lookup(RemoveMatching(s, removed), testName) == Lookup(s, testName)
  {
    if s != [] {
      var rest := RemoveMatching(s[1..], removed);
      LookupRemoveOther(s[1..], removed, testName);
      LookupCons(s[0], s[1..], testName);
      assert s == [s[0]] + s[1..];
      if NameMatches(s[0], removed) {
        assert RemoveMatching(s, removed) == rest;
        assert !NameMatches(s[0], testName);
      } else {
        assert RemoveMatching(s, removed) == [s[0]] + rest;
        LookupCons(s[0], rest, testName);
      }
    }
  }

  /** Appending an entry that does not match leaves a lookup unchanged. */
  lemma LookupAppendOther(s: seq<Grade>, g: Grade, testName: string)
    requires !NameMatches(g, testName)
    ensures Lookup(s + [g], testName) == Lookup(s, testName)
  {
    var t := s + [g];
    var k := FirstMatch(s, testName);
    if k < |s| {
      assert IsFirstMatch(t, testName, k);
    } else {
      assert !HasMatch(t, testName) by {
        forall i | 0 <= i < |t| ensures !NameMatches(t[i], testName) {
          if i < |s| { assert t[i] == s[i]; }
        }
      }
    }
  }

  /**
   * After `addGrade(g)`, looking up any casing of `g`'s name finds `g`, and
   * looking up any other name finds what it found before.
   */
  lemma LookupAfterUpsert(s: seq<Grade>, g: Grade, testName: string)
    ensures Lookup(Upsert(s, g), testName) ==
              if NameMatches(g, testName) then Some(g) else Lookup(s, testName)
  {
    var r := RemoveMatching(s, g.testName);
    if NameMatches(g, testName) {
      RemoveMatchingDropsAll(s, g.testName);
      assert IsFirstMatch(r + [g], testName, |r|);
    } else {
      LookupAppendOther(r, g, testName);
      LookupRemoveOther(s, g.testName, testName);
    }
  }

  // ---------------------------------------------------------------------------
  // toString: each grade's rendering followed by "\n", then trim()
  // ---------------------------------------------------------------------------

  /** What the StringBuilder holds after the loop: every rendering followed by a newline. */
  function Terminated(s: seq<Grade>): string {
    if s == [] then "" else Render(s[0]) + "\n" + Terminated(s[1..])
  }

  /** The renderings joined with newlines between them (the documented output). */
  function Joined(s: seq<Grade>): string {
    if s == [] then ""
    else if |s| == 1 then Render(s[0])
    else Render(s[0]) + "\n" + Joined(s[1..])
  }

  /** Appending one grade appends its line. */
  lemma {:induction false} TerminatedSnoc(s: seq<Grade>, g: Grade)
    ensures Terminated(s + [g]) == Terminated(s) + Render(g) + "\n"
  {
    if s != [] {
      assert (s + [g])[1..] == s[1..] + [g];
      TerminatedSnoc(s[1..], g);
    } else {
      assert [g][1..] == [];
    }
  }

  /** A non-empty list's lines are its joined rendering and one final newline. */
  lemma {:induction false} TerminatedIsJoined(s: seq<Grade>)
    requires s != []
    ensures Terminated(s) == Joined(s) + "\n"
  {
    if |s| > 1 {
      TerminatedIsJoined(s[1..]);
    } else {
      assert s[1..] == [];
    }
  }

  /** When every rendering is trimmed, so is their join. */
  lemma {:induction false} JoinedTrimmed(s: seq<Grade>)
    requires s != []
    requires forall i :: 0 <= i < |s| ==> IsTrimmed(Render(s[i]))
    ensures IsTrimmed(Joined(s))
  {
    if |s| > 1 {
      JoinedTrimmed(s[1..]);
      assert IsTrimmed(Render(s[0]));
    }
  }

  /**
   * When no rendering starts or ends with whitespace, `toString` is the renderings
   * joined by single newlines; the empty list renders as "".
   */
  lemma TrimTerminated(s: seq<Grade>)
    requires forall i :: 0 <= i < |s| ==> IsTrimmed(Render(s[i]))
    ensures Trim(Terminated(s)) == Joined(s)
  {
    if s != [] {
      TerminatedIsJoined(s);
      JoinedTrimmed(s);
      TrimDropsTrailingSpace(Joined(s), '\n');
    }
  }

  // ---------------------------------------------------------------------------
  // hashCode: java.util.List.hashCode over the grades
  // ---------------------------------------------------------------------------

  /** `List.hashCode`: start at 1, then `31 * h + hash(e)` per element, in 32-bit arithmetic. */
  function ListHash(s: seq<Grade>, elementHash: Grade -> int): (h: int)
    ensures Int32Min <= h < Int32Min + Int32Modulus
  {
    if s == [] then 1
    else Wrap32(31 * ListHash(s[..|s| - 1], elementHash) + elementHash(s[|s| - 1]))
  }
}
