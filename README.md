# GradeList in Dafny

A model of `GradeList`, the per-student collection of test grades in the
address book application. A `GradeList` is an ordered list of `Grade`
records keyed by test name. Two test names are the same key when they are
equal ignoring case. `addGrade` is an upsert: it drops every entry whose name
matches the new grade's name, then appends the new grade. So each test has at
most one grade, and updating a grade moves it to the end. `getGrade` returns
the first entry whose name matches, or null. `hasGrade` asks whether that
lookup succeeds. `toString` puts each grade on its own line and trims the
result. `equals` compares the two lists element by element.

Files:

- `java_string.dfy` (module `JavaString`): the `java.lang.String` behaviour the
  list relies on. `equalsIgnoreCase` is equality after a per-character case
  fold. `trim` strips characters up to and including the space from both ends.
  `Wrap32` gives Java `int` wrap-around.
- `grade.dfy` (module `Grades`): the `Grade` record (test name and value), its
  rendering `"TestName: GradeValue"`, and the key comparison `NameMatches`.
- `grade_seq.dfy` (module `GradeSeq`): what each operation does to the
  `seq<Grade>`, written as functions: `RemoveMatching` (the `removeIf`),
  `Upsert` (`addGrade`), `FirstMatch`/`Lookup` (`getGrade`), `Terminated`,
  `Joined` and `Trim` (`toString`), and `ListHash` (`hashCode`). The lemmas
  about them hold the proved properties.
- `grade_list.dfy` (module `GradeLists`): the class `GradeList`. Its `grades`
  field is updated in place by `AddGrade` and `RemoveGrade`. `GetGrade` and
  `ToString` are the source's loops. `HasGrade`, `Equals` and `HashCode` are
  read-only functions. `Valid()` is the key-uniqueness invariant. A client
  method, `MidtermFinalScenario`, walks through an add, update, lookup and
  render sequence and proves its result from the class's contracts.

Two consequences of the code worth stating:

- An update stores the new `Grade` object, so the entry keeps the new grade's
  spelling of the name: adding `("Midterm","A")`, `("Final","B")`,
  `("midterm","A-")` renders as `"Final: B\nmidterm: A-"`. This is proved in
  `MidtermFinalScenario`.
- `toString` never has leading or trailing whitespace, because of `trim`.
  When every grade's rendering is trimmed, the result is the renderings
  joined by single newlines. Otherwise the result is the exact `Trim` of the
  renderings each followed by a newline.

## Model

| member | source | states |
|---|---|---|
| `GradeLists.GradeList.constructor` | src/main/java/seedu/address/model/person/GradeList.java:16-18 | A new list is empty, satisfies the invariant, and `HasGrade(t)` is false for every `t`. |
| `GradeLists.GradeList.AddGrade` | src/main/java/seedu/address/model/person/GradeList.java:26-30 | The new grades are `Upsert(old grades, grade)`: matching entries removed, then the grade appended. The key-uniqueness invariant is kept. |
| `GradeLists.GradeList.RemoveGrade` | src/main/java/seedu/address/model/person/GradeList.java:53-55 | The loop leaves exactly the entries whose name does not match, in their original order (`RemoveMatching`). |
| `GradeLists.GradeList.GetGrade` | src/main/java/seedu/address/model/person/GradeList.java:39-46 | The linear scan returns the first matching entry (`Lookup`). It returns `None` (null) exactly when no entry matches, including on an empty list. Under the invariant, any matching entry is the one returned. |
| `GradeLists.GradeList.HasGrade` | src/main/java/seedu/address/model/person/GradeList.java:63-65 | True exactly when some entry's name equals `testName` ignoring case, i.e. when the lookup succeeds. |
| `GradeLists.GradeList.ToString` | src/main/java/seedu/address/model/person/GradeList.java:74-80 | The result is `trim` of every rendering followed by a newline. The empty list gives `""`. When the renderings are trimmed, the result is the renderings joined by single newlines. |
| `GradeLists.GradeList.Equals` | src/main/java/seedu/address/model/person/GradeList.java:90-101 | True exactly when both lists have the same length and equal grades at every position. |
| `GradeLists.GradeList.HashCode` | src/main/java/seedu/address/model/person/GradeList.java:110-112 | `List.hashCode` of the grades, given each grade's hash. The result is a 32-bit `int`. |
| `GradeLists.ScenarioNames` | src/main/java/seedu/address/model/person/GradeList.java:41 | "Midterm", "midterm" and "MIDTERM" are one key; "Final" is a different key. |
| `GradeLists.ScenarioRendering` | src/main/java/seedu/address/model/person/GradeList.java:74-80 | The list [Final: B, midterm: A-] has trimmed renderings, and their newline join is "Final: B\nmidterm: A-". |
| `GradeSeq.RemoveMatchingAppend` | src/main/java/seedu/address/model/person/GradeList.java:54 | Removal distributes over concatenation. With `RemoveMatchingSingle`, this pins it down as an in-order filter. |
| `GradeSeq.RemoveMatchingSingle` | src/main/java/seedu/address/model/person/GradeList.java:54 | On one entry, removal drops it exactly when its name matches. |
| `GradeSeq.RemoveMatchingContents` | src/main/java/seedu/address/model/person/GradeList.java:54 | Afterwards, each matching grade occurs zero times. Each non-matching grade occurs as often as before. |
| `GradeSeq.RemoveMatchingDropsAll` | src/main/java/seedu/address/model/person/GradeList.java:54 | No remaining entry matches the removed name. |
| `GradeSeq.RemoveMatchingLength` | src/main/java/seedu/address/model/person/GradeList.java:54 | The length drops by exactly the number of matching entries. |
| `GradeSeq.RemoveMatchingNoMatch` | src/main/java/seedu/address/model/person/GradeList.java:54 | When nothing matches, nothing is removed. |
| `GradeSeq.RemoveMatchingIgnoresCase` | src/main/java/seedu/address/model/person/GradeList.java:54 | Removing by two names that are equal ignoring case has the same effect. |
| `GradeSeq.RemoveMatchingKeepsUnique` | src/main/java/seedu/address/model/person/GradeList.java:53-55 | Removal preserves key uniqueness. |
| `GradeSeq.UpsertPlacesLast` | src/main/java/seedu/address/model/person/GradeList.java:26-30 | After `addGrade(g)`, the last entry is `g`. It is the only entry whose name matches `g.testName` ignoring case. |
| `GradeSeq.UpsertLength` | src/main/java/seedu/address/model/person/GradeList.java:28-29 | The new length is the old length, minus the matching entries, plus one. |
| `GradeSeq.UpsertKeepsOthers` | src/main/java/seedu/address/model/person/GradeList.java:28-29 | With the key removed, the list is the same before and after, so other entries keep their relative order. Each grade under another name occurs as often as before. |
| `GradeSeq.UpsertLastWins` | src/main/java/seedu/address/model/person/GradeList.java:26-30 | Adding g1 and then g2, whose names match ignoring case, gives the same list as adding only g2. |
| `GradeSeq.UpsertIdempotent` | src/main/java/seedu/address/model/person/GradeList.java:26-30 | Adding the same grade twice gives the same list as adding it once. |
| `GradeSeq.UpsertKeepsUnique` | src/main/java/seedu/address/model/person/GradeList.java:26-30 | `addGrade` preserves the invariant that no two names match ignoring case. |
| `GradeSeq.FirstMatch` | src/main/java/seedu/address/model/person/GradeList.java:40-44 | The scan's stopping point: no entry before it matches, and the entry at it (if any) matches. |
| `GradeSeq.Lookup` | src/main/java/seedu/address/model/person/GradeList.java:39-46 | Returns `None` exactly when no entry matches. Otherwise it returns a matching entry of the list, and that entry is the first match. |
| `GradeSeq.LookupUnique` | src/main/java/seedu/address/model/person/GradeList.java:39-46 | Under the invariant, any matching entry is the one the lookup returns. |
| `GradeSeq.LookupCons` | src/main/java/seedu/address/model/person/GradeList.java:40-44 | The scan checks the head first, then goes on to the rest. |
| `GradeSeq.LookupRemoveOther` | src/main/java/seedu/address/model/person/GradeList.java:53-55 | Removing one name does not change a lookup of a name that differs ignoring case. |
| `GradeSeq.LookupAppendOther` | src/main/java/seedu/address/model/person/GradeList.java:29 | Appending a non-matching grade does not change a lookup. |
| `GradeSeq.LookupAfterUpsert` | src/main/java/seedu/address/model/person/GradeList.java:26-30 | After `addGrade(g)`, `getGrade(t)` is `g` for every casing `t` of `g`'s name. For every other `t`, it returns what it returned before. |
| `GradeSeq.TerminatedSnoc` | src/main/java/seedu/address/model/person/GradeList.java:76-78 | Each loop step appends one rendering and a newline to the builder. |
| `GradeSeq.TerminatedIsJoined` | src/main/java/seedu/address/model/person/GradeList.java:76-78 | For a non-empty list, the builder holds the newline-joined renderings plus one trailing newline. |
| `GradeSeq.JoinedTrimmed` | src/main/java/seedu/address/model/person/GradeList.java:74-80 | If every rendering is trimmed, their newline join is trimmed. |
| `GradeSeq.TrimTerminated` | src/main/java/seedu/address/model/person/GradeList.java:79 | If every rendering is trimmed, the trimmed builder content equals the newline join, with no trailing newline. |
| `GradeSeq.ListHash` | src/main/java/seedu/address/model/person/GradeList.java:111 | `List.hashCode` over the grades stays within the 32-bit `int` range. |
| `GradeSeq.RemoveMatching` | src/main/java/seedu/address/model/person/GradeList.java:53-55 | Defines the `removeIf`: the entries whose name does not match, in their original order (no ensures; its properties are the `RemoveMatching*` lemmas). |
| `GradeSeq.Upsert` | src/main/java/seedu/address/model/person/GradeList.java:26-30 | Defines `addGrade` on the sequence: remove the matching entries, then append the grade (no ensures; its properties are the `Upsert*` lemmas). |
| `GradeSeq.Terminated` | src/main/java/seedu/address/model/person/GradeList.java:75-78 | Defines the StringBuilder's content after the loop: each rendering followed by a newline (no ensures). |
| `GradeSeq.Joined` | src/main/java/seedu/address/model/person/GradeList.java:68-71 | Defines the documented output: the renderings with a newline between consecutive ones (no ensures). |
| `Grades.Render` | src/main/java/seedu/address/model/person/GradeList.java:69 | Defines a grade's rendering as "TestName: GradeValue" (no ensures). |
| `Grades.NameMatches` | src/main/java/seedu/address/model/person/GradeList.java:41 | Defines the key test: the grade's test name equals the given name ignoring case (no ensures). |
| `JavaString.EqualsIgnoreCase` | src/main/java/seedu/address/model/person/GradeList.java:41 | Defines `equalsIgnoreCase` as equality after folding ASCII letters (no ensures; `EqualsIgnoreCaseCharwise` states its per-character form). |
| `JavaString.Wrap32` | src/main/java/seedu/address/model/person/GradeList.java:111 | The result is a 32-bit `int` and is congruent to its input modulo 2^32, as Java's `int` overflow gives. |
| `GradeLists.HashCodeConsistent` | src/main/java/seedu/address/model/person/GradeList.java:110-112 | Lists that are `Equals` have the same `HashCode` for any per-grade hash. |
| `JavaString.EqualsIgnoreCaseCharwise` | src/main/java/seedu/address/model/person/GradeList.java:41 | Equality after folding holds exactly when the lengths are equal and the characters agree pairwise after folding. |
| `JavaString.Trim` | src/main/java/seedu/address/model/person/GradeList.java:79 | `trim` returns `""` exactly when every character is at most a space. Otherwise it returns a string with no such character at either end. A trimmed string is returned unchanged. |
| `JavaString.TrimDropsTrailingSpace` | src/main/java/seedu/address/model/person/GradeList.java:79 | Trimming a trimmed string followed by a newline gives back that string. |

## Left out

- The internals of `Grade` are not part of this model. It is the datatype `Grade(testName, value)` with structural equality. Its rendering follows the documented format `"TestName: GradeValue"`. The hash of one grade is a parameter of `HashCode`.
- The null check of `addGrade` (`Objects.requireNonNull`) has no counterpart. Dafny values cannot be null, so the throw-before-mutation path does not exist. A null `testName` passed to `getGrade` or `hasGrade` is likewise not representable.
- `equalsIgnoreCase` folds only the ASCII letters. Java's Unicode and locale case rules are library behaviour outside this model.
- The identity and `instanceof` short-circuits of `equals` are Java typing mechanics. `Equals` takes a `GradeList` and compares the grade sequences.
- The `ArrayList` storage is a `seq<Grade>` field that the methods reassign. The `removeIf` loop builds the kept entries and stores them at the end, so aliasing of the underlying array is not modelled.
- `toString` output can contain blank lines when a grade's rendering itself contains consecutive newlines, or is empty or all whitespace; the model computes such output exactly but proves no statement about blank lines.
