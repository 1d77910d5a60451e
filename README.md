# chizfuerzo learning site — answer checking, grading and navigation

A Dafny model of `script.js`, the client script of a small course site.
The site lists courses. Opening one shows a level tab bar (básico,
intermedio, avanzado) and two section tabs (theory and exercises). The
exercises section is a form of questions with a verify button. The model
covers four parts:

- **Text** (`text.dfy`) holds the string primitives the answer checker
  chains together: `toLowerCase`, `trim`, `replace(/[.,!?'"]+/g, '')` and
  `split('|')`, with the join that inverts the split.
- **AnswerMatcher** (`matcher.dfy`) is `checkAnswer`. A numeric answer
  matches within an absolute tolerance of 0.001. A text answer matches when
  its normal form equals one of the alternatives of the canonical answer;
  the alternatives are separated by a vertical bar, the delimiter.
- **Grader** (`grader.dfy`) is the loop of `verifyAnswers`: one feedback
  entry per exercise, a counter of correct answers, "correct of total" and
  the perfect-score line.
- **Navigation** (`navigation.dfy`) is the page state. It holds the
  selected course, the selected level and the container's `section`
  attribute. The click handlers update this state in place, as methods of
  class `App`. The pure functions `Step`/`Run` say what a click does, and
  `Project` says what `renderApp` shows for a state.

The content repository (`data.js`) is a read-only `Content` value. The DOM
inputs are a map from exercise index to typed text; an index missing from
the map is an exercise whose input element does not exist. `parseFloat` is
a parameter `parse: string -> Option<real>`, where `None` stands for NaN.

Behaviour of the code worth knowing:

- Opening a course resets the level to "basico" but keeps the section
  attribute.
- The home button clears the section attribute but keeps the level.
- The back arrow clears only the course.
- Normalisation is not idempotent. Trimming happens before punctuation is
  deleted, so `"Paris ."` normalises to `"paris "` (`NormalizeNotIdempotent`).
- The perfect-score line needs only `correct == total`; there is no
  `total > 0` condition. An empty exercise list shows no form and no verify
  button, so it is never graded from the page.

## Model

| member | source | states |
|---|---|---|
| Text.LowerChar | script.js:30 | an ASCII capital becomes the letter 32 code points later; every other character is unchanged; the result is never a capital |
| Text.Lower | script.js:30 | same length, each character lower-cased in place, no capital letter left |
| Text.LowerKeeps | script.js:30 | lower-casing only introduces letters, so punctuation-free, delimiter-free and trimmed strings stay so |
| Text.TrimStart | script.js:30 | the leading run of white space is dropped; what is dropped is all white space; the result starts with a non-space character and contains only characters of the input |
| Text.TrimEnd | script.js:30 | the trailing run of white space is dropped; what is dropped is all white space; the result ends with a non-space character and contains only characters of the input |
| Text.TrimStartSuffix | script.js:30 | what `TrimStart` keeps is a suffix of its input |
| Text.TrimEndPrefix | script.js:30 | what `TrimEnd` keeps is a prefix of its input |
| Text.Trim | script.js:30 | the result has no white space at either end, is no longer than the input and contains only characters of the input |
| Text.TrimOfPadded | script.js:30 | trimming a trimmed text padded with white space on both sides gives back exactly that text |
| Text.TrimFixedPoint | script.js:30 | `trim` leaves a string unchanged exactly when it is already trimmed |
| Text.TrimIdempotent | script.js:35 | trimming an already trimmed string changes nothing |
| Text.StripPunctuation | script.js:30 | the result holds no `. , ! ? ' "`, and a character occurs in it exactly when it occurs in the input and is not one of those |
| Text.StripNoPunctuation | script.js:30 | a string without those characters is left unchanged |
| Text.StripAppend | script.js:30 | the deletion acts on a concatenation part by part |
| Text.Split | script.js:35 | at least one piece, and no piece contains the delimiter |
| Text.JoinSplit | script.js:35 | joining the pieces of a split with the delimiter gives back the original string |
| Text.SplitJoin | script.js:35 | splitting delimiter-free pieces joined with the delimiter gives back the pieces, empty ones included |
| Text.TrimSpacePrefix | script.js:30 | white space in front of a string does not change its trimmed form |
| Text.TrimSpaceSuffix | script.js:30 | white space behind a string does not change its trimmed form |
| Text.TrimStripTrimStart | script.js:30 | trimming the front before deleting punctuation makes no difference once the result is trimmed |
| Text.TrimStripTrimEnd | script.js:30 | trimming the back before deleting punctuation makes no difference once the result is trimmed |
| Text.FirstAlternative | script.js:262 | the text shown as "the" correct answer is the prefix of the canonical answer up to the first delimiter, or the whole answer if it has none |
| AnswerMatcher.Normalize | script.js:30 | the normal form has no punctuation of the deleted class, no capital letter, and is no longer than the input |
| AnswerMatcher.NormalizeFixedPoint | script.js:30 | normalising a normal form only trims it again, so a normal form is a fixed point exactly when it is trimmed |
| AnswerMatcher.NormalizeNotIdempotent | script.js:30 | a word followed by " ." normalises to the word plus a space, and normalising again gives a different string |
| AnswerMatcher.Alternatives | script.js:32-35 | at least one alternative, each trimmed, without the delimiter and without deleted punctuation |
| AnswerMatcher.TextMatches | script.js:31-36 | a text match needs the user's normal form to be trimmed and free of the delimiter |
| AnswerMatcher.AlternativesOfJoin | script.js:30-35 | for delimiter-free pieces joined by the delimiter there is one alternative per piece, in order, and alternative `j` is piece `j` lower-cased, stripped of the deleted punctuation and trimmed |
| AnswerMatcher.TextMatchesJoin | script.js:31-36 | for such a joined canonical answer a text answer matches exactly when its normal form equals some piece lower-cased, stripped and trimmed, both directions |
| AnswerMatcher.TextMatchesPieces | script.js:31-36 | for every canonical answer a text answer matches exactly when its normal form equals one of the pieces between delimiters, lower-cased, stripped and trimmed, both directions |
| AnswerMatcher.NumericMatches | script.js:22-27 | a numeric answer matches exactly when both sides parse and differ by strictly less than 0.001; NaN never matches |
| AnswerMatcher.NumericSymmetric | script.js:26 | the numeric comparison does not depend on which side is the user's |
| AnswerMatcher.NumericReflexive | script.js:22-27 | a number matches itself exactly when it parses |
| AnswerMatcher.Matches | script.js:21-37 | a numeric match needs both sides to parse; a text match needs the user's normal form to be trimmed and delimiter-free |
| AnswerMatcher.AlternativeAccepted | script.js:34-36 | every alternative written into a canonical answer is accepted when typed as written, unless it contains deleted punctuation |
| AnswerMatcher.ShownAnswerAccepted | script.js:262 | the answer shown after a wrong response is accepted when typed back, if it contains no deleted punctuation |
| AnswerMatcher.ShownAnswerMayBeRejected | script.js:260-263 | for a canonical answer such as "Paris ." then the delimiter then "Lutecia" the shown answer "Paris ." is itself rejected |
| AnswerMatcher.SingleAlternative | script.js:35-36 | with no delimiter in the canonical answer, a text answer matches exactly when its normal form equals the trimmed normal form of the canonical answer, both directions |
| Grader.Input | script.js:246-251 | the typed answer of exercise `i` is present exactly when its input element exists, and it is that element's value |
| Grader.ItemFeedback | script.js:246-265 | an exercise without input is skipped; otherwise the feedback is "correct" exactly when `checkAnswer` holds, and a wrong answer shows the first alternative |
| Grader.CountCorrect | script.js:243 | the count never exceeds the number of entries |
| Grader.CountCorrectAll | script.js:275 | the count equals the number of entries exactly when every entry is correct |
| Grader.CountCorrectNone | script.js:243 | the count is zero exactly when no entry is correct |
| Grader.PerfectIffAllMatch | script.js:245-277 | the congratulation condition holds exactly when every exercise has an input and its answer matches, so one skipped exercise spoils it |
| Grader.Feedbacks | script.js:245-266 | one feedback entry per exercise |
| Grader.FeedbacksAt | script.js:245-266 | entry `i` is the feedback of exercise `i` against input `i` |
| Grader.Grade | script.js:243-277 | the pass yields the feedback of every exercise in order, `correct` is the number of correct entries, `total` the number of exercises, and `perfect` holds exactly when they are equal |
| Navigation.TheoryFor | script.js:143-147 | the theory text of a course and level, absent when the entry is missing or empty |
| Navigation.ExercisesFor | script.js:149 | the exercise list of a course and level, empty when the entry is missing |
| Navigation.ShownSection | script.js:143 | the exercises section is shown exactly when the section attribute says so; unset reads as theory |
| Navigation.Cards | script.js:49-72 | one card per course, in order; a course is a link card exactly when it is external, and a link card carries the course URL |
| Navigation.DetailBody | script.js:143-150 | theory shows the text or, when absent, the placeholder; exercises show the form with exactly the exercise list, or the placeholder when it is empty |
| Navigation.OnPage | script.js:82-90 | the home button (lines 309-313) is always there; otherwise course cards are on the page exactly on the course list, and the back arrow and tabs (lines 172-190) exactly on a course detail; a card with a handler is a listed internal course |
| Navigation.Handle | script.js:172-190 | a handler keeps the invariant; a course is selected after a card (lines 85-86) or tab click and cleared by the back arrow and the home button (lines 311-312); only a card and a level tab change the level; only a section tab and the home button change the section attribute |
| Navigation.Step | script.js:82-90 | every click keeps the invariant that a selected course is a listed internal course, and a control not on the page changes nothing |
| Navigation.Run | script.js:172-190 | any sequence of clicks keeps that invariant |
| Navigation.HasVerifyButton | script.js:192-193 | the verify button is on the page exactly in the exercises section of a course whose list for the level is not empty, and the form holds that list |
| Navigation.Project | script.js:298-302 | the course list exactly when no course is selected; otherwise the detail of the selected course with the selected level and shown section highlighted |
| Navigation.RunAppend | script.js:172-190 | clicking one sequence and then another is clicking their concatenation |
| Navigation.OffPageInert | script.js:82-90 | an external card, a card while a course is open, and a course control on the course list change nothing |
| Navigation.OpenCourse | script.js:84-88 | opening an internal course selects it at level "basico" and keeps the section |
| Navigation.PickLevel | script.js:178-182 | a level tab selects and highlights its level in the same course and section |
| Navigation.PickSection | script.js:185-189 | a section tab shows its section in the same course and level |
| Navigation.BackKeepsSection | script.js:173-175 | the back arrow clears only the course and shows the course list; the next course opened shows the same section |
| Navigation.HomeThenOpen | script.js:309-313 | the home button clears the course and the section, keeps the level, and the next course opened shows its theory at "basico" |
| Navigation.SwitchCourseResetsLevel | script.js:84-88 | opening a course, picking "avanzado", going back and opening another course gives that course at "basico" with no section attribute |
| Navigation.InitialView | script.js:6-7 | the page opens on the course list |
| Navigation.TheoryShown | script.js:143-147 | with the section attribute unset or "theory" the theory is shown, and the placeholder appears exactly when the text is absent |
| Navigation.App.constructor | script.js:6-7 | the page starts with no course, level "basico" and no section attribute |
| Navigation.App.ClickCourseCard | script.js:84-88 | the card handler updates the state as `Step` says and keeps the invariant |
| Navigation.App.ClickBack | script.js:173-175 | the back-arrow handler updates the state as `Step` says and keeps the invariant |
| Navigation.App.ClickLevelTab | script.js:179-181 | the level-tab handler updates the state as `Step` says and keeps the invariant |
| Navigation.App.ClickSectionTab | script.js:186-188 | the section-tab handler updates the state as `Step` says and keeps the invariant |
| Navigation.App.ClickHome | script.js:309-313 | the home handler updates the state as `Step` says and keeps the invariant |
| Navigation.App.CurrentView | script.js:291-303 | the course list, with every card, exactly when no course is selected; otherwise the selected course, highlighted at the selected level and in the section the attribute names (theory when unset), with that section's content; under the invariant that course is a listed internal one |
| Navigation.App.VerifyAnswers | script.js:239-282 | nothing without a selected course; otherwise the score of the selected course's exercises at the selected level, as `Grade` states it |

## Left out

- Text.Lower: lower-cases ASCII capitals only. `toLowerCase` also maps non-ASCII capitals (accented Spanish letters among them), and Unicode case mapping is not modelled.
- `parseFloat` is a parameter, so partial parses such as `"3abc"` and infinities are whatever that parameter returns.
- AnswerMatcher.NumericMatches: the subtraction and the comparison with 0.001 are exact on reals, while the code computes them in IEEE double precision. Rounding is not modelled: with a `parse` that returns the decimal values, `"0.00000000000000000003"` against `"0.001"` matches in the model, but in double precision the difference rounds to 0.001 and is not a match.
- A numeric canonical answer stored as a JavaScript number goes through `String()` and `parseFloat`. The model takes every canonical answer as text.
- A browser empties the value of an `<input type="number">` holding text that is not a number. That sanitising is left to the `parse` parameter and the input map.
- AnswerMatcher.Matches: its own contract gives only necessary conditions for a match. The full characterisation is its body together with `NumericMatches`, `TextMatchesPieces` (every canonical answer) and `SingleAlternative`.
- Grader.ItemFeedback: a missing input element and a missing feedback element are one case (the index is absent from the input map), because the code skips the exercise for either.
- The score summary element is assumed present. When it is missing the code shows nothing, and the model still returns the score.
- Navigation.App.VerifyAnswers: requires that the selected course has an exercise entry, because the lookup on `script.js:242` throws without one. Throwing is not modelled.
- Markup, CSS classes, the fade-in animation and the capitalised tab labels are presentation only and are not modelled.
- Event listeners and their re-binding on each render become the guard `OnPage`.
- A card click is modelled by position: card `i` always selects `courses[i]`. The code looks a card up by element id (`script.js:84`), and `getElementById` returns the first element with that id. With two internal courses sharing an id, both handlers bind to the first card, so a click on it selects the later of the two courses and the second card has no handler. The model does not reproduce this.
- The Firebase persistence that the code has already removed (`script.js:281`) is not modelled.
