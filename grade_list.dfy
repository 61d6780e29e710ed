/**
 * GradeList: a student's grades, at most one per test name compared
 * ignoring case, held in an ordered list that the methods update in place.
 */
module GradeLists {
  import opened JavaString
  import opened Grades
  import opened GradeSeq

  class GradeList {
    /** The grades, in the order they were (last) added. */
    var grades: seq<Grade>

    /** The class invariant: no two entries share a test name, ignoring case. */
    ghost predicate Valid()
      reads this
    {
      UniqueNames(grades)
    }

    /** A new GradeList holds no grade. */
    constructor ()
      ensures grades == [] && Valid()
      ensures forall t :: !HasGrade(t)
    {
      grades := [];
    }

    /**
     * Records `grade`, replacing any grade for the same test (ignoring case);
     * the new grade goes to the end of the list.
     */
    method AddGrade(grade: Grade)
      modifies this
      ensures grades == Upsert(old(grades), grade)
      ensures old(Valid()) ==> Valid()
    {
      ghost var before := grades;
      RemoveGrade(grade.testName);
      grades := grades + [grade];
      if UniqueNames(before) {
        UpsertKeepsUnique(before, grade);
      }
    }

    /** Drops every grade whose test name matches `testName`, keeping the others in order. */
    method RemoveGrade(testName: string)
      modifies this
      ensures grades == RemoveMatching(old(grades), testName)
    {
      var all := grades;
      var kept: seq<Grade> := [];
      var i := 0;
      while i < |all|
        invariant 0 <= i <= |all|
        invariant kept == RemoveMatching(all[..i], testName)
      {
        assert all[..i + 1] == all[..i] + [all[i]];
        RemoveMatchingAppend(all[..i], [all[i]], testName);
        RemoveMatchingSingle(all[i], testName);
        if !EqualsIgnoreCase(all[i].testName, testName) {
          kept := kept + [all[i]];
        }
        i := i + 1;
      }
      assert all[..i] == all;
      grades := kept;
    }

    /** The first grade whose test name matches `testName`, or `None` (Java's null). */
    method GetGrade(testName: string) returns (r: Option<Grade>)
      ensures r == Lookup(grades, testName)
      ensures r.None? <==> forall i :: 0 <= i < |grades| ==> !NameMatches(grades[i], testName)
      ensures Valid() ==> forall i :: 0 <= i < |grades| && NameMatches(grades[i], testName) ==> r == Some(grades[i])
    {
      forall i | Valid() && 0 <= i < |grades| && NameMatches(grades[i], testName)
        ensures Lookup(grades, testName) == Some(grades[i])
      {
        LookupUnique(grades, testName, i);
      }
      var i := 0;
      while i < |grades|
        invariant 0 <= i <= |grades|
        invariant forall j :: 0 <= j < i ==> !NameMatches(grades[j], testName)
      {
        if EqualsIgnoreCase(grades[i].testName, testName) {
          assert IsFirstMatch(grades, testName, i);
          return Some(grades[i]);
        }
        i := i + 1;
      }
      return None;
    }

    /** Whether some grade is recorded for `testName` (ignoring case). */
    function HasGrade(testName: string): (b: bool)
      reads this
      ensures b <==> exists i :: 0 <= i < |grades| && EqualsIgnoreCase(grades[i].testName, testName)
    {
      Lookup(grades, testName).Some?
    }

    /** Every grade's rendering on its own line, with surrounding whitespace trimmed. */
    method ToString() returns (s: string)
      ensures s == Trim(Terminated(grades))
      ensures grades == [] ==> s == ""
      ensures (forall i :: 0 <= i < |grades| ==> IsTrimmed(Render(grades[i]))) ==> s == Joined(grades)
    {
      var text := "";
      var i := 0;
      while i < |grades|
        invariant 0 <= i <= |grades|
        invariant text == Terminated(grades[..i])
      {
        assert grades[..i + 1] == grades[..i] + [grades[i]];
        TerminatedSnoc(grades[..i], grades[i]);
        text := text + Render(grades[i]) + "\n";
        i := i + 1;
      }
      assert grades[..i] == grades;
      s := Trim(text);
      if forall i :: 0 <= i < |grades| ==> IsTrimmed(Render(grades[i])) {
        TrimTerminated(grades);
      }
    }

    /** Two GradeLists are equal when they hold equal grades in the same order. */
    function Equals(other: GradeList): (b: bool)
      reads this, other
      ensures b <==> |grades| == |other.grades| &&
                     forall i :: 0 <= i < |grades| ==> grades[i] == other.grades[i]
    {
      grades == other.grades
    }

    /** `List.hashCode` of the grades, given each grade's own hash code. */
    function HashCode(elementHash: Grade -> int): (h: int)
      reads this
      ensures Int32Min <= h < Int32Min + Int32Modulus
    {
      ListHash(grades, elementHash)
    }
  }

  /** Equal lists have equal hash codes, whatever each grade's own hash code is. */
  lemma HashCodeConsistent(a: GradeList, b: GradeList, elementHash: Grade -> int)
    requires a.Equals(b)
    ensures a.HashCode(elementHash) == b.HashCode(elementHash)
  {
  }

  /** The three test names of the scenario below, compared as `equalsIgnoreCase` does. */
  lemma ScenarioNames()
    ensures EqualsIgnoreCase("Midterm", "midterm") && EqualsIgnoreCase("midterm", "MIDTERM")
    ensures !EqualsIgnoreCase("Midterm", "Final") && !EqualsIgnoreCase("Final", "midterm")
  {
    EqualsIgnoreCaseCharwise("Midterm", "midterm");
    EqualsIgnoreCaseCharwise("midterm", "MIDTERM");
    EqualsIgnoreCaseCharwise("Midterm", "Final");
    EqualsIgnoreCaseCharwise("Final", "midterm");
  }

  /** The rendering of the scenario's final list: each line trimmed, joined by a newline. */
  lemma ScenarioRendering()
    ensures IsTrimmed(Render(Grade("Final", "B"))) && IsTrimmed(Render(Grade("midterm", "A-")))
    ensures Joined([Grade("Final", "B"), Grade("midterm", "A-")]) == "Final: B\nmidterm: A-"
  {
    assert Render(Grade("Final", "B")) == "Final: B";
    assert Render(Grade("midterm", "A-")) == "midterm: A-";
    assert [Grade("Final", "B"), Grade("midterm", "A-")][1..] == [Grade("midterm", "A-")];
  }

  /**
   * A client of the class: a second grade for "midterm" in another casing
   * replaces the first and moves behind "Final".
   */
  method MidtermFinalScenario()
  {
    var list := new GradeList();
    var midterm := Grade("Midterm", "A");
    var final := Grade("Final", "B");
    var retake := Grade("midterm", "A-");
    ScenarioNames();
    list.AddGrade(midterm);
    assert list.grades == [midterm];
    list.AddGrade(final);
    assert list.grades == [midterm, final] by {
      RemoveMatchingSingle(midterm, "Final");
    }
    list.AddGrade(retake);
    assert list.grades == [final, retake] by {
      RemoveMatchingAppend([midterm], [final], "midterm");
      RemoveMatchingSingle(midterm, "midterm");
      RemoveMatchingSingle(final, "midterm");
    }
    var found := list.GetGrade("MIDTERM");
    assert found == Some(retake) by {
      assert IsFirstMatch(list.grades, "MIDTERM", 1);
    }
    ScenarioRendering();
    var text := list.ToString();
    assert text == "Final: B\nmidterm: A-";
  }
}
