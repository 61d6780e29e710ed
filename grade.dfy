/**
 * The `Grade` record a GradeList holds. Its own class is not part of this
 * model: only its test name, an uninterpreted value, its rendering and
 * structural equality are used.
 */
module Grades {
  import opened JavaString

  /** A recorded grade: the name of the test and the grade awarded for it. */
  datatype Grade = Grade(testName: string, value: string)

  /** A grade's string form, "TestName: GradeValue". */
  function Render(g: Grade): string {
    g.testName + ": " + g.value
  }

  /** The grade's test name equals `testName` ignoring case: the key test of every GradeList operation. */
  predicate NameMatches(g: Grade, testName: string) {
    EqualsIgnoreCase(g.testName, testName)
  }
}
