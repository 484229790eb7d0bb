# Study guide quiz session, modelled in Dafny

The Java program `StudyGuide` quizzes its user on a few Java concepts. It
keeps a `HashMap` from each concept to its `Meaning`. A flag records whether
the user has already given the meaning correctly. It also keeps the number of
points the user can get (`possiblePoints`, which is the guide's size) and,
inside `study`, the running score `userPoints`.

The study loop works in rounds. Each round prompts every concept not yet
answered correctly and reads one input line as the answer. If the line
matches, the concept is marked and the score rises by one. After the round,
if points are left, one more line is read. When that line is `remove` in any
case, the next line names a concept to remove. The loop ends when the score
reaches the possible points. It also ends when the user quits: `userQuit`
accepts any input that the literal `"x quit"` contains. So `x`, `quit`, `qu`,
a single space and even an empty line quit, but `X`, `QUIT` and `exquisite`
do not. The input itself is never lower-cased.

Two files:

- `text.dfy` (module `Text`): `String.contains` as a left-to-right search,
  proved equal to "occurs at some index", and `String.toLowerCase` on ASCII
  letters.
- `study_guide.dfy` (module `StudyGuide`): the quit and remove predicates, the
  counting lemmas about the guide, and the class `Session`. `Session` holds
  the guide (`map<string, bool>`), `possible` and `score`. Its invariant
  `Valid()` says that `possible` is the guide's size and `score` is the
  number of concepts known. Every method keeps that invariant. `StudySession`
  is `main`: it builds the guide and runs the study loop.

The console is a sequence of input lines read from the front.
`Scanner.hasNextLine()` holds while lines remain. When no line remains, the
previous input is kept, as the source does. `System.exit(100)` becomes the
ending `Quit(points, possible)`. Whether an answer matches a concept's meaning
is decided by `Meaning.userInputMatches`. That class is not part of this
model, so the study loop takes the match test as a parameter
`matches(concept, input)`.

Each round played is recorded as a ghost `RoundTrace`: the state it started
from, the prompts of its pass, the guide and read position after the pass,
the removal, whether the user quit, and the state it ended in. `RoundDone`
says what a round does, and `Played` chains the rounds of a study: the first
starts at line 0 with the input `startInConsole`, each later one where the
previous one ended, and each only while the loop guard holds.

Once the input is used up, the source's loop can repeat one round forever.
The model detects this: a round that reads no line and marks nothing leaves
the state exactly as it was (`SameCountSameGuide`, `Stalls`). In that case
the model returns `Stalled` instead of looping.

Two behaviours of the code worth noting:

- The quit test is a substring test against `"x quit"`
  (src/StudyGuide.java:131). The input is neither trimmed nor case-folded, so
  `X` and `QUIT` do not quit.
- The round counter is never advanced. `rounds` is set to 1 and stays 1
  (src/StudyGuide.java:43), so every round report says round 1.

## Model

| member | source | states |
|---|---|---|
| `Text.Contains` | src/StudyGuide.java:131 | when the search finds the needle, the needle is no longer than the text searched |
| `Text.ContainsIffOccurs` | src/StudyGuide.java:131 | `contains` succeeds exactly when the needle occurs at some index of the text (both directions) |
| `Text.ToLowerChar` | src/StudyGuide.java:96 | lower-casing a character leaves no upper-case ASCII letter and changes nothing but upper-case ASCII letters |
| `Text.ToLower` | src/StudyGuide.java:96 | lower-casing keeps the length and maps each character to its lower-case form (ASCII letters only) |
| `Text.ToLowerKeepsLowerCase` | src/StudyGuide.java:131 | lower-casing a string without upper-case letters returns it unchanged |
| `StudyGuide.UserQuit` | src/StudyGuide.java:129-142 | an input quits only when it is not null and no longer than `"x quit"` (`UserQuitIff` gives both directions) |
| `StudyGuide.QuitInputsAreLowerCase` | src/StudyGuide.java:15 | lower-casing the quit literal `"x quit"` does not change it |
| `StudyGuide.UserQuitIff` | src/StudyGuide.java:129-142 | a non-null input quits exactly when it occurs somewhere in `"x quit"` |
| `StudyGuide.QuitInputIsLowerCasePiece` | src/StudyGuide.java:131 | an input that quits has at most six characters and no upper-case letter, because the input is not case-folded |
| `StudyGuide.QuitExamples` | src/StudyGuide.java:131 | `x`, `quit`, `qu`, the empty line, a single space and `x quit` all quit |
| `StudyGuide.NotQuitExamples` | src/StudyGuide.java:131 | null, `X`, `QUIT`, `Quit`, `exquisite`, `remove` and the initial input `startInConsole` do not quit |
| `StudyGuide.IsRemoveCommand` | src/StudyGuide.java:96 | the remove command is recognised only in an input of exactly six characters, as long as `remove` |
| `StudyGuide.RemoveCommandIff` | src/StudyGuide.java:96 | the remove command is recognised exactly when the input has six characters, each the letter of `remove` in either case |
| `StudyGuide.RemoveCommandExamples` | src/StudyGuide.java:96 | `remove`, `Remove` and `REMOVE` are recognised; ` remove`, `remove ` and `rem` are not |
| `StudyGuide.KnownWithinGuide` | src/StudyGuide.java:18-20 | the number of concepts known never exceeds the guide's size, so the score never exceeds the possible points |
| `StudyGuide.UnknownLeavesPoints` | src/StudyGuide.java:64 | while some concept is not yet known, the score is below the possible points |
| `StudyGuide.MarkAddsOne` | src/StudyGuide.java:74-75 | marking a concept not yet known adds exactly that concept to the known ones, one more than before |
| `StudyGuide.RemoveUnknownKeepsKnown` | src/StudyGuide.java:174-181 | removing a concept not yet known keeps every known concept and shrinks the guide by one |
| `StudyGuide.SameCountSameGuide` | src/StudyGuide.java:50-104 | if a round only marks concepts and the known count is unchanged, the guide is unchanged |
| `StudyGuide.AllKnownFillsGuide` | src/StudyGuide.java:91 | when every concept is known, the score equals the possible points |
| `StudyGuide.Classify` | src/StudyGuide.java:170-189 | the outcome of removing a concept: not found exactly when it is absent, already known exactly when it is known, removed exactly when it is present and not known |
| `StudyGuide.SeedGuide` | src/StudyGuide.java:148-160 | the initial guide holds five distinct concepts (`double` and `Double` are different keys), none known |
| `StudyGuide.Session.constructor` | src/StudyGuide.java:148-163 | a new session has the seed guide, five possible points, score 0, and satisfies the invariant |
| `StudyGuide.Session.UpdatePossiblePoints` | src/StudyGuide.java:194-197 | the possible points become the guide's size |
| `StudyGuide.Session.RemoveConcept` | src/StudyGuide.java:170-189 | three outcomes. A present, unknown concept is deleted, only that key, and the possible points drop by one. A known concept or an absent one leaves the guide and the possible points unchanged. The score never changes |
| `StudyGuide.Session.Answer` | src/StudyGuide.java:72-82 | for a concept not yet known: a quitting input changes nothing and ends the session; otherwise a match marks the concept and adds exactly one point; a mismatch changes nothing |
| `StudyGuide.Session.Prompt` | src/StudyGuide.java:64-83 | the next line, if any, replaces the current input; without one the previous input answers again; then as `Answer` |
| `StudyGuide.Session.PlayRound` | src/StudyGuide.java:52-84 | the pass, through the ghost record of its prompts (`PassDone`): every concept unknown at the start is prompted exactly once and no other concept is; prompt `j` is answered by line `pos0 + j` while lines remain, then by the last line read; the new guide is the old one with exactly the concepts marked whose answer matched and did not quit; a pass that does not quit read no quitting input, one that quits stops at its first quitting input with points left; the read position and current input are those after `|prompts|` prompts |
| `StudyGuide.PassStep` | src/StudyGuide.java:64-82 | prompting one pending unknown concept extends the pass: that concept alone is marked, exactly when its answer matches and does not quit, and the pass goes on unless the answer quits |
| `StudyGuide.PassSkip` | src/StudyGuide.java:64 | a concept already known is skipped and nothing else changes |
| `StudyGuide.PassStart` | src/StudyGuide.java:52-54 | a pass starts with every concept pending and nothing prompted |
| `StudyGuide.MarkedByExtend` | src/StudyGuide.java:72-75 | one more prompt marks its own concept exactly when its answer matches and does not quit, and keeps what the earlier prompts marked |
| `StudyGuide.PromptReads` | src/StudyGuide.java:68-70 | a prompt reads the next line when one remains and is answered by it; otherwise the current input answers again |
| `StudyGuide.ReadFacts` | src/StudyGuide.java:68-70 | after some prompts the current input is the last line read, or the earlier input when none was read; with lines left, a prompt reads one |
| `StudyGuide.PassFacts` | src/StudyGuide.java:50-84 | a pass only marks concepts; with points left, a pass that does not quit prompts at least once; with points left, a quitting first line ends the pass with nothing marked |
| `StudyGuide.PassMarks` | src/StudyGuide.java:72-76 | the concepts known after a pass are those known before plus the concepts answered correctly, which were unknown before, so the score rises by exactly their number |
| `StudyGuide.Session.EndOfRound` | src/StudyGuide.java:90-103 | reads the command line if there is one (else keeps the input); removes the concept named on the next line exactly when the command is `remove` in any case and that line exists, reading two lines then and one otherwise; the removal's outcome is `Classify` of the guide and that line |
| `StudyGuide.Session.Round` | src/StudyGuide.java:51-103 | one loop iteration, returned as the ghost record `step` and stated by `RoundDone`: the pass as `PlayRound` states it (`PassDone`), ending in the guide `played` at read position `mid`; a round that quits stops there with the quitting input current; otherwise, with points left and a line to read, the command line at `mid` is read and becomes the current input, else the pass's last input stays current; a removal happens exactly when that line is `remove` in any case and one more line exists, reading two lines, with outcome `Classify(played, that line)`, and the guide loses that concept exactly when the outcome is `Removed`; the report shows the points after the pass, the possible points at the round's start and the round number; no line read and no point scored means the state is unchanged |
| `StudyGuide.Session.Study` | src/StudyGuide.java:31-107 | the ghost `trace` holds the rounds played, chained by `Played` from the starting guide, line 0 and `startInConsole`, each played under the loop guard as `RoundDone` says; a round is played exactly when points are left at the start; the final guide and the lines read are those after the last round; `Finished` exactly when the score equals the possible points, `Quit` exactly when points are left and the last round's input quits, `Stalled` exactly when points are left, that input does not quit and the last round left the state unchanged, and then no concept left unknown matches that input; one report per round that did not quit, equal to `ReportOf` that round; the reports are of round 1, never drop and never exceed the final score; a quitting first line quits with no report |
| `StudyGuide.StudySession` | src/StudyGuide.java:23-27 | from the seed guide at least one round is played, chained by `Played`; the ending carries the points and possible points after the last round, with 0 <= points <= possible <= 5; the three endings exactly as `Study` states them; one report per round that did not quit; a quitting first line ends with `Quit(0, 5)` and no report |
| `StudyGuide.PlayedExtend` | src/StudyGuide.java:50-104 | a round played where the study left off, while the loop guard holds, extends the rounds played |
| `StudyGuide.StudyStep` | src/StudyGuide.java:50-104 | one more round keeps the loop's bookkeeping: the rounds end in the new state, the stall flag says exactly whether that round changed nothing, and its report is added unless it quit |
| `StudyGuide.StallMatchesNothing` | src/StudyGuide.java:64-76 | a round that changes nothing found no line left to read; its input does not quit, and no concept it leaves unknown matches that input, so the source would repeat it forever |
| `StudyGuide.FirstLineQuits` | src/StudyGuide.java:64-72 | with points left, a quitting first line ends the first round at once with nothing marked, and no further round is played |
| `StudyGuide.KeepsKnownCounts` | src/StudyGuide.java:170-197 | a guide that keeps every known concept and gains no concept has at least the points and no more possible points |
| `StudyGuide.RoundKeepsKnown` | src/StudyGuide.java:51-103 | a round keeps every known concept: its pass only marks concepts and keeps the guide's size, and a removal deletes only a concept not known |
| `StudyGuide.PlayedKeepsKnown` | src/StudyGuide.java:50-104 | a concept known when one round starts is present and known when every later round starts |
| `StudyGuide.PassKeepsKnown` | src/StudyGuide.java:50-104 | a concept known after a round's pass is present and known when every later round starts |
| `StudyGuide.ReportBounds` | src/StudyGuide.java:86-88 | each round's report shows at least the points known when the study started, out of no more than the guide's size then |
| `StudyGuide.PointsAtMostFinal` | src/StudyGuide.java:86-88 | no round's report shows more points than are known at the end |
| `StudyGuide.PointsGrow` | src/StudyGuide.java:86-88 | a later round's report never shows fewer points than an earlier one's |
| `StudyGuide.PlayedReports` | src/StudyGuide.java:86-88 | the reports of a study are of round 1, within the starting points and guide size, never dropping and never above the final score; the rounds keep every concept known at the start |
| `StudyGuide.RoundInput` | src/StudyGuide.java:64-95 | after a round the current input is the one it started with or a line it read, and the read position only advances |
| `StudyGuide.PlayedInput` | src/StudyGuide.java:45-95 | after any round the current input is `startInConsole` or a line already read |

## Left out

- Console output and `printInstructions` (src/StudyGuide.java:113-121) are left out. Message wording is not behaviour. The round summary is kept as a `RoundReport` of its three numbers.
- `Meaning` is not part of this model. `userInputMatches`, `markUserGotCorrect`, `userGotCorrect` and `getMeaning` become the guide's boolean and the `matches` parameter.
- The null-meaning purge (src/StudyGuide.java:58-61) is left out because it cannot happen. Every value stored by `populateStudyGuide` is a new `Meaning`, and `removeConcept` only deletes whole entries, so `get` on a key of the live key set never returns null. Had it run, it would not have refreshed `possiblePoints`.
- `HashMap` iteration order and `keySet` view semantics are left out. A round visits the concepts present at its start in an arbitrary order, and prompts each one unknown at its start exactly once (`PassDone`). Nothing removes an entry during a round, so the live view and this snapshot agree.
- `String.toLowerCase` is modelled on the ASCII letters only. No other character lower-cases to a letter of `remove`, and the quit literal is ASCII.
- `userQuit`'s null test is modelled through `Option`, but `study` never passes null: its input starts as `startInConsole` and `nextLine` never returns null.
- `System.exit(100)` does not terminate anything here. It is the `Quit` ending, carrying the score and possible points the source prints.
- `StudyGuide.Session.Study`: when the input is used up and a round changes nothing, the source repeats that round forever. The model returns `Stalled` instead; it does not describe the endless repetition.
