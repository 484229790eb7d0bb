/**
 The quiz session of the study guide: a guide mapping each concept to whether
 the user has got its meaning right, the points the user can still obtain
 (`possiblePoints`), the running score (`userPoints`), the round loop that
 prompts every concept not yet answered correctly, the end-of-round command
 that removes a concept, and the quit test.

 Console input is a sequence of lines read from the front; `Scanner.hasNextLine`
 is "the cursor has not reached the end". Whether an answer matches a
 concept's meaning is decided by `Meaning.userInputMatches`, which is not part
 of this model: the round loop takes it as a function `matches(concept, input)`.
 */
module StudyGuide {
  import opened Text

  datatype Option<T> = None | Some(value: T)

  /** The inputs that quit, separated by a space (`USER_QUIT_INPUTS`). */
  const QuitInputs: string := "x quit"
  /** The value `userInput` holds before anything has been read. */
  const InitialInput: string := "startInConsole"
  /** The end-of-round command that removes a concept. */
  const RemoveCommand: string := "remove"

  /*** The quit test ***/

  /** `userQuit`: the input quits when it is not null and the lower-cased
      quit literal contains it. Only the literal is lower-cased, never the
      input, and any substring of it quits, the empty one included. */
  predicate UserQuit(input: Option<string>)
    ensures UserQuit(input) ==> input.Some? && |input.value| <= |QuitInputs|
  {
    input.Some? && Contains(ToLower(QuitInputs), input.value)
  }

  /** Lower-casing does not change the quit literal. */
  lemma QuitInputsAreLowerCase()
    ensures ToLower(QuitInputs) == QuitInputs
  {
  }

  /** An input quits exactly when it occurs somewhere in "x quit". */
  lemma UserQuitIff(s: string)
    ensures UserQuit(Some(s)) <==> exists i :: OccursAt(QuitInputs, s, i)
  {
    QuitInputsAreLowerCase();
    ContainsIffOccurs(QuitInputs, s);
  }

  /** A quitting input is at most six characters long and holds no
      upper-case letter: the input is not case-folded. */
  lemma QuitInputIsLowerCasePiece(s: string)
    requires UserQuit(Some(s))
    ensures |s| <= |QuitInputs|
    ensures forall k :: 0 <= k < |s| ==> !IsUpperAscii(s[k])
  {
    UserQuitIff(s);
    var i :| OccursAt(QuitInputs, s, i);
    forall k | 0 <= k < |s|
      ensures !IsUpperAscii(s[k])
    {
      assert s[k] == QuitInputs[i + k];
    }
  }

  /** The documented quit words and every other piece of the literal quit. */
  lemma QuitExamples()
    ensures UserQuit(Some("x")) && UserQuit(Some("quit"))
    ensures UserQuit(Some("qu")) && UserQuit(Some("")) && UserQuit(Some(" "))
    ensures UserQuit(Some("x quit"))
  {
  }

  /** Null, upper-case words, longer words and ordinary answers do not quit. */
  lemma NotQuitExamples()
    ensures !UserQuit(None)
    ensures !UserQuit(Some("X")) && !UserQuit(Some("QUIT")) && !UserQuit(Some("Quit"))
    ensures !UserQuit(Some("exquisite")) && !UserQuit(Some("remove"))
    ensures !UserQuit(Some(InitialInput))
  {
    if UserQuit(Some("X")) { QuitInputIsLowerCasePiece("X"); assert IsUpperAscii("X"[0]); }
    if UserQuit(Some("QUIT")) { QuitInputIsLowerCasePiece("QUIT"); assert IsUpperAscii("QUIT"[0]); }
    if UserQuit(Some("Quit")) { QuitInputIsLowerCasePiece("Quit"); assert IsUpperAscii("Quit"[0]); }
  }

  /*** The end-of-round remove command ***/

  /** `userInput.toLowerCase().equals("remove")`. */
  predicate IsRemoveCommand(input: string)
    ensures IsRemoveCommand(input) ==> |input| == |RemoveCommand|
  {
    ToLower(input) == RemoveCommand
  }

  /** The remove command is recognised without regard to case, and only as
      the whole input: six characters, each the letter of "remove" in either
      case. */
  lemma RemoveCommandIff(s: string)
    ensures IsRemoveCommand(s) <==>
      |s| == 6 && forall k :: 0 <= k < 6 ==> s[k] == RemoveCommand[k] || s[k] as int == RemoveCommand[k] as int - 32
  {
  }

  /** Examples: any capitalisation is accepted, surrounding spaces are not. */
  lemma RemoveCommandExamples()
    ensures IsRemoveCommand("remove") && IsRemoveCommand("Remove") && IsRemoveCommand("REMOVE")
    ensures !IsRemoveCommand(" remove") && !IsRemoveCommand("remove ") && !IsRemoveCommand("rem")
  {
  }

  /*** The guide ***/

  /** The concepts of a guide whose meaning the user has got right. */
  function Known(guide: map<string, bool>): set<string>
  {
    set c | c in guide && guide[c]
  }

  /** The score never exceeds the possible points: the known concepts are
      among the guide's concepts. */
  lemma {:induction false} KnownWithinGuide(guide: map<string, bool>)
    ensures |Known(guide)| <= |guide|
  {
    SubsetNoLarger(Known(guide), guide.Keys);
  }

  /** A subset is no larger than the set that holds it. */
  lemma {:induction false} SubsetNoLarger<T>(small: set<T>, large: set<T>)
    requires small <= large
    ensures |small| <= |large|
    decreases small
  {
    if small != {} {
      var x :| x in small;
      SubsetNoLarger(small - {x}, large - {x});
    }
  }

  /** While some concept is not yet known, there are points left to score. */
  lemma {:induction false} UnknownLeavesPoints(guide: map<string, bool>, concept: string)
    requires concept in guide && !guide[concept]
    ensures |Known(guide)| < |guide|
  {
    var rest := guide.Keys - {concept};
    SubsetNoLarger(Known(guide), rest);
    assert |rest| == |guide| - 1;
  }

  /** Marking a concept that is not yet known adds exactly that concept to
      the known ones. */
  lemma MarkAddsOne(guide: map<string, bool>, concept: string)
    requires concept in guide && !guide[concept]
    ensures Known(guide[concept := true]) == Known(guide) + {concept}
    ensures |Known(guide[concept := true])| == |Known(guide)| + 1
  {
  }

  /** Removing a concept that is not yet known drops one entry and keeps
      every known concept. */
  lemma RemoveUnknownKeepsKnown(guide: map<string, bool>, concept: string)
    requires concept in guide && !guide[concept]
    ensures Known(guide - {concept}) == Known(guide)
    ensures |guide - {concept}| == |guide| - 1
  {
  }

  /** If marks are only ever added over the same concepts and the number of
      known concepts is unchanged, nothing was marked. */
  lemma {:induction false} SameCountSameGuide(before: map<string, bool>, after: map<string, bool>)
    requires before.Keys == after.Keys
    requires forall c :: c in before && before[c] ==> after[c]
    requires |Known(after)| == |Known(before)|
    ensures after == before
  {
    assert Known(before) <= Known(after);
    assert |Known(after) - Known(before)| == 0;
    assert Known(after) == Known(before);
    forall c | c in after
      ensures after[c] == before[c]
    {
      if after[c] {
        assert c in Known(after);
      }
    }
  }

  /** The five concepts `populateStudyGuide` stores, none answered yet. */
  function SeedGuide(): (guide: map<string, bool>)
    ensures |guide| == 5
    ensures Known(guide) == {}
  {
    var g := map["Variable" := false, "String" := false, "double" := false,
                 "Double" := false, "zero" := false];
    assert "double"[0] != "Double"[0];
    assert g.Keys == {"Variable", "String", "double", "Double", "zero"};
    g
  }

  /** What `removeConcept` reports for a concept. */
  datatype RemoveStatus = Removed | AlreadyKnown | NotFound

  /** The outcome of removing `concept` from `guide`. */
  function Classify(guide: map<string, bool>, concept: string): (r: RemoveStatus)
    ensures r == NotFound <==> concept !in guide
    ensures r == AlreadyKnown <==> concept in Known(guide)
    ensures r == Removed <==> concept in guide && concept !in Known(guide)
  {
    if concept !in guide then NotFound
    else if guide[concept] then AlreadyKnown
    else Removed
  }

  /** The outcome of one prompt. */
  datatype Verdict = QuitRequested | Correct | Wrong

  /** One prompt of a pass: the concept asked and the input that answered. */
  datatype Prompted = Prompted(concept: string, input: string)

  /** The figures of "You have X of Y possible points at the end of round Z". */
  datatype RoundReport = RoundReport(points: int, possible: int, round: int)

  /** How a study session ends: with every point scored, with the user
      quitting (exit status 100), or with the input used up and a round that
      changed nothing, after which the source's loop repeats that same round
      forever. */
  datatype Ending =
    | Finished(points: int, possible: int)
    | Quit(points: int, possible: int)
    | Stalled(points: int, possible: int)

  /** The record of one round of `study`: the state it started from (the
      guide `guide0`, read position `pos0` and current input `input0`), the
      prompts of its pass, the guide `played` and read position `mid` after
      the pass, the removal made and whether the user quit, and the state it
      ended in. */
  datatype RoundTrace = RoundTrace(
    guide0: map<string, bool>, pos0: nat, input0: string,
    prompts: seq<Prompted>, played: map<string, bool>, mid: nat,
    removal: Option<RemoveStatus>, quit: bool,
    guide: map<string, bool>, pos: nat, input: string)

  /** The study session's state. */
  class Session {
    /** `studyGuide`: each concept and whether its meaning was got right. */
    var guide: map<string, bool>
    /** `possiblePoints`. */
    var possible: int
    /** `study`'s `userPoints`, kept here so that the steps can update it. */
    var score: int

    /** The possible points are the guide's size and the score is the number
        of concepts known. */
    ghost predicate Valid()
      reads this
    {
      possible == |guide| && score == |Known(guide)|
    }

    /** `populateStudyGuide`, then the score of a new study session. */
    constructor ()
      ensures Valid()
      ensures guide == SeedGuide() && possible == 5 && score == 0
    {
      guide := SeedGuide();
      score := 0;
      new;
      UpdatePossiblePoints();
    }

    /** `updatePossiblePoints`. */
    method UpdatePossiblePoints()
      modifies this`possible
      ensures possible == |guide|
    {
      possible := |guide|;
    }

    /** `removeConcept`: drop a concept the user gives up on, unless it is
        absent or already known, and recompute the possible points. */
    method RemoveConcept(concept: string) returns (status: RemoveStatus)
      requires Valid()
      modifies this
      ensures Valid()
      ensures status == Classify(old(guide), concept)
      ensures status == Removed <==> concept in old(guide) && !old(guide)[concept]
      ensures status == Removed ==> guide == old(guide) - {concept} && possible == old(possible) - 1
      ensures status != Removed ==> guide == old(guide) && possible == old(possible)
      ensures score == old(score)
    {
      if concept in guide {
        if !guide[concept] {
          RemoveUnknownKeepsKnown(guide, concept);
          guide := guide - {concept};
          UpdatePossiblePoints();
          status := Removed;
        } else {
          status := AlreadyKnown;
        }
      } else {
        status := NotFound;
      }
    }

    /** One prompt for a concept not yet known, given the input line that
        answers it: a quitting input ends the session, a matching answer
        marks the concept and scores a point, anything else changes nothing. */
    method Answer(concept: string, input: string, matches: bool) returns (outcome: Verdict)
      requires Valid()
      requires concept in guide && !guide[concept]
      modifies this
      ensures Valid() && possible == old(possible)
      ensures outcome == QuitRequested <==> UserQuit(Some(input))
      ensures outcome == Correct <==> !UserQuit(Some(input)) && matches
      ensures outcome == Correct ==> guide == old(guide)[concept := true] && score == old(score) + 1
      ensures outcome != Correct ==> guide == old(guide) && score == old(score)
    {
      if !UserQuit(Some(input)) {
        if matches {
          MarkAddsOne(guide, concept);
          guide := guide[concept := true];
          score := score + 1;
          outcome := Correct;
        } else {
          outcome := Wrong;
        }
      } else {
        outcome := QuitRequested;
      }
    }

    /** One pass of the round loop over the concepts present at its start,
        in any order: each concept not yet known is prompted, and the next
        input line, if there is one, becomes its answer. Returns the new
        read position, the current input, whether the user quit, and, as a
        ghost record, the prompts in the order they were made. */
    method PlayRound(lines: seq<string>, pos0: nat, input0: string, matches: (string, string) -> bool)
      returns (pos: nat, input: string, quit: bool, ghost prompts: seq<Prompted>)
      requires Valid() && pos0 <= |lines|
      modifies this
      ensures Valid() && possible == old(possible) && old(score) <= score
      // what the pass does
      ensures PassDone(old(guide), guide, prompts, matches, lines, pos0, input0, quit)
      ensures pos == ReadPos(lines, pos0, |prompts|) && input == LastInput(lines, pos0, input0, |prompts|)
      ensures quit ==> UserQuit(Some(input)) && score < possible
    {
      pos, input, quit, prompts := pos0, input0, false, [];
      var pending := guide.Keys;
      PassStart(guide, matches, lines, pos0, input0);
      while pending != {}
        invariant Valid() && possible == old(possible) && old(score) <= score
        invariant PassSoFar(old(guide), guide, pending, prompts, matches, lines, pos0, input0)
        invariant pos == ReadPos(lines, pos0, |prompts|) && input == LastInput(lines, pos0, input0, |prompts|)
        decreases pending
      {
        var concept :| concept in pending;
        if !guide[concept] {
          ghost var earlier := prompts;
          PromptReads(lines, pos0, input0, |prompts|);
          var outcome;
          ghost var before := guide;
          pos, input, outcome := Prompt(concept, lines, pos, input, matches);
          PassStep(old(guide), before, pending, prompts, matches, lines, pos0, input0, concept, input, guide);
          prompts := prompts + [Prompted(concept, input)];
          if outcome == QuitRequested {
            assert prompts[..|prompts| - 1] == earlier;
            UnknownLeavesPoints(guide, concept);
            quit := true;
            return;
          }
        } else {
          PassSkip(old(guide), guide, pending, prompts, matches, lines, pos0, input0, concept);
        }
        pending := pending - {concept};
      }
    }

    /** The prompt for one concept not yet known: the next input line, if
        there is one, replaces the current input, which then answers. */
    method Prompt(concept: string, lines: seq<string>, pos0: nat, input0: string, matches: (string, string) -> bool)
      returns (pos: nat, input: string, outcome: Verdict)
      requires Valid() && pos0 <= |lines|
      requires concept in guide && !guide[concept]
      modifies this
      ensures Valid() && possible == old(possible)
      ensures pos == (if pos0 < |lines| then pos0 + 1 else pos0)
      ensures input == (if pos0 < |lines| then lines[pos0] else input0)
      ensures outcome == QuitRequested <==> UserQuit(Some(input))
      ensures outcome == Correct <==> !UserQuit(Some(input)) && matches(concept, input)
      ensures outcome == Correct ==> guide == old(guide)[concept := true] && score == old(score) + 1
      ensures outcome != Correct ==> guide == old(guide) && score == old(score)
      ensures OnlyMarks(old(guide), guide)
    {
      pos, input := pos0, input0;
      if pos < |lines| {
        input := lines[pos];
        pos := pos + 1;
      }
      outcome := Answer(concept, input, matches(concept, input));
    }

    /** After a round that left points to score: read the command line, and
        when it is "remove" in any case, read one more line and remove that
        concept. Without an input line the previous input is kept. */
    method EndOfRound(lines: seq<string>, pos0: nat, input0: string)
      returns (pos: nat, input: string, removal: Option<RemoveStatus>)
      requires Valid() && pos0 <= |lines|
      modifies this
      ensures Valid() && score == old(score)
      ensures pos0 <= pos <= |lines|
      ensures pos == pos0 <==> pos0 == |lines|
      ensures pos == pos0 ==> input == input0
      ensures pos > pos0 ==> input == lines[pos0]
      ensures removal.Some? <==> pos0 + 1 < |lines| && IsRemoveCommand(lines[pos0])
      ensures removal.Some? ==> pos == pos0 + 2 && removal.value == Classify(old(guide), lines[pos0 + 1])
      ensures removal.None? ==> pos == if pos0 < |lines| then pos0 + 1 else pos0
      ensures removal == Some(Removed) ==> guide == old(guide) - {lines[pos0 + 1]} && possible == old(possible) - 1
      ensures removal != Some(Removed) ==> guide == old(guide) && possible == old(possible)
    {
      pos, input, removal := pos0, input0, None;
      if pos < |lines| {
        input := lines[pos];
        pos := pos + 1;
        if IsRemoveCommand(input) {
          if pos < |lines| {
            var status := RemoveConcept(lines[pos]);
            pos := pos + 1;
            removal := Some(status);
          }
        }
      }
    }

    /** One iteration of `study`'s loop: a pass over the concepts, the
        score report, and, when points are left, the end-of-round command.
        The report shows the points after the pass, before any removal. The
        ghost result `step` records the round, as `RoundDone` describes it. */
    method Round(lines: seq<string>, pos0: nat, input0: string, round: int, matches: (string, string) -> bool)
      returns (pos: nat, input: string, quit: bool, report: RoundReport, removal: Option<RemoveStatus>,
               ghost step: RoundTrace)
      requires Valid() && pos0 <= |lines|
      modifies this
      ensures Valid()
      // the record of the round
      ensures step.guide0 == old(guide) && step.pos0 == pos0 && step.input0 == input0
      ensures step.removal == removal && step.quit == quit
      ensures step.guide == guide && step.pos == pos && step.input == input
      ensures RoundDone(lines, matches, step)
      // the report
      ensures score == |Known(step.played)|
      ensures !quit ==> report == RoundReport(score, old(possible), round) && score <= old(possible)
      // what follows for the study loop
      ensures KeepsKnown(old(guide), guide)
      ensures old(score) <= score && possible <= old(possible)
      ensures pos0 <= pos <= |lines|
      ensures quit ==> UserQuit(Some(input)) && score < possible
      ensures input == input0 || exists k :: pos0 <= k < pos && input == lines[k]
      ensures !quit && old(score) < old(possible) && pos0 < |lines| ==> pos0 < pos
      ensures pos == pos0 ==> input == input0 && possible == old(possible) && OnlyMarks(old(guide), guide)
      ensures pos == pos0 && score == old(score) ==> guide == old(guide)
      ensures old(score) < old(possible) && pos0 < |lines| && UserQuit(Some(lines[pos0])) ==>
                quit && guide == old(guide) && score == old(score)
    {
      report, removal := RoundReport(score, possible, round), None;
      ghost var prompts;
      pos, input, quit, prompts := PlayRound(lines, pos0, input0, matches);
      ghost var played, mid := guide, pos;
      PassFacts(old(guide), guide, prompts, matches, lines, pos0, input0, quit);
      ReadFacts(lines, pos0, input0, |prompts|);
      if pos == pos0 && score == old(score) {
        SameCountSameGuide(old(guide), guide);
      }
      if !quit {
        KnownWithinGuide(guide);
        report := RoundReport(score, possible, round);
        if score < possible {
          pos, input, removal := EndOfRound(lines, pos, input);
        }
      }
      step := RoundTrace(old(guide), pos0, input0, prompts, played, mid, removal, quit, guide, pos, input);
    }

    /** `study`: rounds repeat while points are left and the current input
        does not quit. The round counter is set to 1 and never advanced.
        Returns the ending, the reports of the rounds played and the number
        of input lines read; the ghost result `trace` records the rounds. */
    method Study(lines: seq<string>, matches: (string, string) -> bool)
      returns (ending: Ending, reports: seq<RoundReport>, consumed: nat, ghost trace: seq<RoundTrace>)
      requires Valid()
      modifies this
      ensures Valid()
      ensures ending.points == score && ending.possible == possible
      // the rounds played, and the state they end in
      ensures Played(lines, matches, old(guide), trace)
      ensures trace == [] <==> old(score) == old(possible)
      ensures trace == [] ==> guide == old(guide) && consumed == 0
      ensures trace != [] ==> guide == Last(trace).guide && consumed == Last(trace).pos
      // why the loop stopped
      ensures ending.Finished? <==> score == possible
      ensures ending.Quit? <==> score < possible && trace != [] && UserQuit(Some(Last(trace).input))
      ensures ending.Stalled? <==>
                score < possible && trace != [] && !UserQuit(Some(Last(trace).input)) && Stalls(Last(trace))
      ensures ending.Stalled? ==> forall c :: c in guide && !guide[c] ==> !matches(c, Last(trace).input)
      // one report per round that did not quit
      ensures |reports| == if trace != [] && Last(trace).quit then |trace| - 1 else |trace|
      ensures forall i :: 0 <= i < |reports| ==> reports[i] == ReportOf(trace[i])
      // consequences
      ensures consumed <= |lines|
      ensures ending.Quit? ==> exists k :: 0 <= k < consumed && UserQuit(Some(lines[k]))
      ensures ending.Stalled? ==> consumed == |lines|
      ensures old(score) <= score && possible <= old(possible)
      ensures KeepsKnown(old(guide), guide)
      ensures ReportsWithin(reports, old(score), old(possible))
      ensures PointsNeverDrop(reports)
      ensures PointsAtMost(reports, score)
      ensures old(score) < old(possible) && |lines| > 0 && UserQuit(Some(lines[0])) ==>
                ending == Quit(old(score), old(possible)) && reports == []
    {
      var input := InitialInput;
      var pos: nat := 0;
      var rounds := 1;
      var stalled := false;
      reports, trace := [], [];
      NotQuitExamples();
      while score < possible && !UserQuit(Some(input)) && !stalled
        invariant Valid() && 0 <= pos <= |lines|
        invariant rounds == 1
        invariant StudySoFar(lines, matches, old(guide), trace, reports, guide, pos, input, stalled)
        decreases |lines| - pos, possible - score, if stalled then 0 else 1
      {
        ghost var before, input0 := guide, input;
        var pos0, score0 := pos, score;
        var quit, report, removal;
        ghost var step;
        pos, input, quit, report, removal, step := Round(lines, pos, input, rounds, matches);
        ghost var reports0 := reports;
        if !quit {
          reports := reports + [report];
          if pos == pos0 && score == score0 && score < possible {
            // No line was read, so the round ran without input, and nothing
            // was marked: the next round would find the same state again.
            assert guide == before && input == input0;
            stalled := true;
          }
        }
        ghost var trace0 := trace;
        trace := trace + [step];
        StudyStep(lines, matches, old(guide), trace0, reports0, before, pos0, input0,
                  step, trace, reports, guide, pos, input, stalled);
      }
      KnownWithinGuide(guide);
      consumed := pos;
      if trace != [] {
        PlayedReports(lines, matches, old(guide), trace, reports);
        PlayedInput(lines, matches, old(guide), trace, |trace| - 1);
        KeepsKnownCounts(old(guide), guide);
      }
      if old(score) < old(possible) && |lines| > 0 && UserQuit(Some(lines[0])) {
        FirstLineQuits(lines, matches, old(guide), trace);
      }
      if stalled {
        StallMatchesNothing(lines, matches, Last(trace));
        ending := Stalled(score, possible);
      } else if score < possible {
        ending := Quit(score, possible);
      } else {
        ending := Finished(score, possible);
      }
    }
  }

  /** `after` has the concepts of `before`, and every concept known in
      `before` is known in `after`: a round only marks concepts. */
  ghost predicate OnlyMarks(before: map<string, bool>, after: map<string, bool>)
  {
    && after.Keys == before.Keys
    && forall c :: c in before && before[c] ==> after[c]
  }

  /** When every concept is known, the score has reached the possible points. */
  lemma {:induction false} AllKnownFillsGuide(guide: map<string, bool>)
    requires AllKnownExcept(guide, {})
    ensures |Known(guide)| == |guide|
  {
    assert Known(guide) == guide.Keys;
  }

  /** Every concept of the guide outside `pending` is known. */
  ghost predicate AllKnownExcept(guide: map<string, bool>, pending: set<string>)
  {
    forall c :: c in guide && c !in pending ==> guide[c]
  }

  /** Every concept known before is still present and known after. */
  ghost predicate KeepsKnown(before: map<string, bool>, after: map<string, bool>)
  {
    && after.Keys <= before.Keys
    && forall c :: c in before && before[c] ==> c in after && after[c]
  }

  lemma KeepsKnownCompose(a: map<string, bool>, b: map<string, bool>, c: map<string, bool>)
    requires KeepsKnown(a, b) && KeepsKnown(b, c)
    ensures KeepsKnown(a, c)
  {
  }

  /** Every report is of round 1 and shows at least `least` points out of at
      most `most` possible ones. */
  predicate ReportsWithin(reports: seq<RoundReport>, least: int, most: int)
  {
    forall r :: r in reports ==> r.round == 1 && least <= r.points <= r.possible <= most
  }

  /** The points shown by successive reports never go down. */
  predicate PointsNeverDrop(reports: seq<RoundReport>)
  {
    forall i, j :: 0 <= i < j < |reports| ==> reports[i].points <= reports[j].points
  }

  /** No report shows more than `points` points. */
  predicate PointsAtMost(reports: seq<RoundReport>, points: int)
  {
    forall r :: r in reports ==> r.points <= points
  }

  /*** The prompts of a pass ***/

  /** The input answering the `j`-th prompt of a pass that starts reading at
      `pos0` with `input0` current: line `pos0 + j` while lines remain, then
      the last line read, or `input0` when no line was left to read. */
  function PromptInput(lines: seq<string>, pos0: nat, input0: string, j: nat): string
    requires pos0 <= |lines|
  {
    if pos0 + j < |lines| then lines[pos0 + j]
    else if pos0 < |lines| then lines[|lines| - 1]
    else input0
  }

  /** The read position after `n` prompts from `pos0`. */
  function ReadPos(lines: seq<string>, pos0: nat, n: nat): (pos: nat)
    requires pos0 <= |lines|
    ensures pos0 <= pos <= |lines|
  {
    if pos0 + n < |lines| then pos0 + n else |lines|
  }

  /** The current input after `n` prompts from `pos0`. */
  function LastInput(lines: seq<string>, pos0: nat, input0: string, n: nat): string
    requires pos0 <= |lines|
  {
    if n == 0 then input0 else PromptInput(lines, pos0, input0, n - 1)
  }

  /** A prompt reads the next line when one remains and answers with it;
      otherwise it answers with the current input. */
  lemma PromptReads(lines: seq<string>, pos0: nat, input0: string, n: nat)
    requires pos0 <= |lines|
    ensures ReadPos(lines, pos0, n + 1) ==
              if ReadPos(lines, pos0, n) < |lines| then ReadPos(lines, pos0, n) + 1 else ReadPos(lines, pos0, n)
    ensures PromptInput(lines, pos0, input0, n) ==
              if ReadPos(lines, pos0, n) < |lines| then lines[ReadPos(lines, pos0, n)] else LastInput(lines, pos0, input0, n)
  {
  }

  /** After `n` prompts the current input is the last line read, or `input0`
      when none was read; a prompt with lines left reads one. */
  lemma ReadFacts(lines: seq<string>, pos0: nat, input0: string, n: nat)
    requires pos0 <= |lines|
    ensures ReadPos(lines, pos0, n) == pos0 ==> LastInput(lines, pos0, input0, n) == input0
    ensures ReadPos(lines, pos0, n) > pos0 ==> LastInput(lines, pos0, input0, n) == lines[ReadPos(lines, pos0, n) - 1]
    ensures 0 < n && pos0 < |lines| ==> pos0 < ReadPos(lines, pos0, n)
  {
  }

  /** Every prompt names a concept present and not known in `guide`, and no
      concept is prompted twice. */
  ghost predicate PromptsOnce(guide: map<string, bool>, prompts: seq<Prompted>)
  {
    && (forall j :: 0 <= j < |prompts| ==> prompts[j].concept in guide && !guide[prompts[j].concept])
    && (forall i, j :: 0 <= i < j < |prompts| ==> prompts[i].concept != prompts[j].concept)
  }

  /** Every concept of `guide` not known and not in `pending` was prompted. */
  ghost predicate Covers(guide: map<string, bool>, pending: set<string>, prompts: seq<Prompted>)
  {
    forall c :: c in guide && !guide[c] && c !in pending ==>
      exists j :: 0 <= j < |prompts| && prompts[j].concept == c
  }

  /** No prompted concept is in `pending`. */
  ghost predicate Outside(prompts: seq<Prompted>, pending: set<string>)
  {
    forall j :: 0 <= j < |prompts| ==> prompts[j].concept !in pending
  }

  /** The prompts were answered by the inputs read from `pos0` on. */
  ghost predicate InputsRead(lines: seq<string>, pos0: nat, input0: string, prompts: seq<Prompted>)
    requires pos0 <= |lines|
  {
    forall j :: 0 <= j < |prompts| ==> prompts[j].input == PromptInput(lines, pos0, input0, j)
  }

  /** No prompt was answered with a quitting input. */
  ghost predicate NoQuit(prompts: seq<Prompted>)
  {
    forall j :: 0 <= j < |prompts| ==> !UserQuit(Some(prompts[j].input))
  }

  /** `c` was prompted and answered with a matching input that does not quit. */
  ghost predicate MarkedBy(prompts: seq<Prompted>, matches: (string, string) -> bool, c: string)
  {
    exists j :: 0 <= j < |prompts| && prompts[j].concept == c &&
      !UserQuit(Some(prompts[j].input)) && matches(c, prompts[j].input)
  }

  /** `after` is `before` with exactly the concepts marked that `prompts`
      answered correctly. */
  ghost predicate MarkedAfter(before: map<string, bool>, after: map<string, bool>,
                              prompts: seq<Prompted>, matches: (string, string) -> bool)
  {
    && after.Keys == before.Keys
    && forall c :: c in after ==> (after[c] <==> before[c] || MarkedBy(prompts, matches, c))
  }

  /** Part way through a pass over `before`: `guide` is `before` with what
      `prompts` marked; the concepts still `pending` are untouched; each
      prompted concept was unknown in `before`, is no longer pending and was
      prompted once; every unknown concept no longer pending was prompted;
      the prompts were answered by the inputs read from `pos0` on, and none
      of those quit. */
  ghost predicate PassSoFar(before: map<string, bool>, guide: map<string, bool>, pending: set<string>,
                            prompts: seq<Prompted>, matches: (string, string) -> bool,
                            lines: seq<string>, pos0: nat, input0: string)
    requires pos0 <= |lines|
  {
    && pending <= before.Keys
    && MarkedAfter(before, guide, prompts, matches)
    && (forall c :: c in pending ==> guide[c] == before[c])
    && PromptsOnce(before, prompts) && Outside(prompts, pending)
    && Covers(before, pending, prompts)
    && InputsRead(lines, pos0, input0, prompts) && NoQuit(prompts)
  }

  /** A pass starts with every concept pending and nothing prompted. */
  lemma PassStart(guide: map<string, bool>, matches: (string, string) -> bool,
                  lines: seq<string>, pos0: nat, input0: string)
    requires pos0 <= |lines|
    ensures PassSoFar(guide, guide, guide.Keys, [], matches, lines, pos0, input0)
  {
  }

  /** Visiting a pending concept that is already known changes nothing but
      the pending set. */
  lemma PassSkip(before: map<string, bool>, guide: map<string, bool>, pending: set<string>,
                 prompts: seq<Prompted>, matches: (string, string) -> bool,
                 lines: seq<string>, pos0: nat, input0: string, concept: string)
    requires pos0 <= |lines|
    requires PassSoFar(before, guide, pending, prompts, matches, lines, pos0, input0)
    requires concept in pending && guide[concept]
    ensures PassSoFar(before, guide, pending - {concept}, prompts, matches, lines, pos0, input0)
  {
  }

  /** Prompting a pending concept that is not known, with the next input:
      the concept is marked when the input matches and does not quit, and
      the pass goes on unless the input quits. */
  lemma {:induction false} PassStep(before: map<string, bool>, guide: map<string, bool>, pending: set<string>,
                 prompts: seq<Prompted>, matches: (string, string) -> bool,
                 lines: seq<string>, pos0: nat, input0: string,
                 concept: string, input: string, after: map<string, bool>)
    requires pos0 <= |lines|
    requires PassSoFar(before, guide, pending, prompts, matches, lines, pos0, input0)
    requires concept in pending && !guide[concept]
    requires input == PromptInput(lines, pos0, input0, |prompts|)
    requires after == if !UserQuit(Some(input)) && matches(concept, input) then guide[concept := true] else guide
    ensures MarkedAfter(before, after, prompts + [Prompted(concept, input)], matches)
    ensures PromptsOnce(before, prompts + [Prompted(concept, input)])
    ensures InputsRead(lines, pos0, input0, prompts + [Prompted(concept, input)])
    ensures !UserQuit(Some(input)) ==>
              PassSoFar(before, after, pending - {concept}, prompts + [Prompted(concept, input)], matches, lines, pos0, input0)
  {
    var p := Prompted(concept, input);
    var all := prompts + [p];
    assert forall j :: 0 <= j < |prompts| ==> all[j] == prompts[j];
    assert all[|prompts|] == p;
    MarkedByExtend(prompts, p, matches);
    assert !MarkedBy(prompts, matches, concept);
  }

  /** A whole pass over `before` ended in `after` after `prompts`: each
      prompted concept was unknown and prompted once; the prompts were
      answered by the inputs read from `pos0` on; `after` is `before` with
      exactly the concepts marked whose answer matched and did not quit. A
      pass that did not quit prompted every unknown concept and read no
      quitting input; one that quit stopped at its first quitting input. */
  ghost predicate PassDone(before: map<string, bool>, after: map<string, bool>, prompts: seq<Prompted>,
                           matches: (string, string) -> bool, lines: seq<string>, pos0: nat, input0: string,
                           quit: bool)
    requires pos0 <= |lines|
  {
    && PromptsOnce(before, prompts) && InputsRead(lines, pos0, input0, prompts)
    && MarkedAfter(before, after, prompts, matches)
    && (!quit ==> Covers(before, {}, prompts) && NoQuit(prompts))
    && (quit ==> |prompts| > 0 && NoQuit(prompts[..|prompts| - 1]) && UserQuit(Some(prompts[|prompts| - 1].input)))
  }

  /** What a finished pass means for the study loop: it only marks
      concepts; with points left, a pass that does not quit prompts at least
      once; and with points left, a quitting first line ends the pass at
      once, with nothing marked. */
  lemma {:induction false} PassFacts(before: map<string, bool>, after: map<string, bool>, prompts: seq<Prompted>,
                  matches: (string, string) -> bool, lines: seq<string>, pos0: nat, input0: string, quit: bool)
    requires pos0 <= |lines|
    requires PassDone(before, after, prompts, matches, lines, pos0, input0, quit)
    ensures OnlyMarks(before, after)
    ensures !quit && |Known(before)| < |before| ==> 0 < |prompts|
    ensures |Known(before)| < |before| && pos0 < |lines| && UserQuit(Some(lines[pos0])) ==> quit && after == before
  {
    if !quit && prompts == [] {
      assert AllKnownExcept(before, {});
      AllKnownFillsGuide(before);
    }
    if prompts != [] && pos0 < |lines| {
      assert prompts[0].input == lines[pos0];
      if 1 < |prompts| {
        assert prompts[..|prompts| - 1][0] == prompts[0];
      }
    }
    if |prompts| == 1 && quit {
      forall c | c in after
        ensures after[c] == before[c]
      {
        assert !MarkedBy(prompts, matches, c);
      }
    }
  }

  /** The concepts that `prompts` answered with a matching input that does
      not quit. */
  ghost function MatchedConcepts(prompts: seq<Prompted>, matches: (string, string) -> bool): set<string>
  {
    set j | 0 <= j < |prompts| && !UserQuit(Some(prompts[j].input)) && matches(prompts[j].concept, prompts[j].input)
      :: prompts[j].concept
  }

  /** The points a pass scores: the concepts known after it are those known
      before plus the concepts answered correctly, which were not known
      before, so the score rises by exactly their number. */
  lemma {:induction false} PassMarks(before: map<string, bool>, after: map<string, bool>, prompts: seq<Prompted>,
                                     matches: (string, string) -> bool)
    requires PromptsOnce(before, prompts) && MarkedAfter(before, after, prompts, matches)
    ensures Known(after) == Known(before) + MatchedConcepts(prompts, matches)
    ensures Known(before) !! MatchedConcepts(prompts, matches)
    ensures |Known(after)| == |Known(before)| + |MatchedConcepts(prompts, matches)|
  {
    var matched := MatchedConcepts(prompts, matches);
    forall c | c in matched
      ensures c in after && after[c] && c !in Known(before)
    {
      var j :| 0 <= j < |prompts| && !UserQuit(Some(prompts[j].input)) &&
        matches(prompts[j].concept, prompts[j].input) && prompts[j].concept == c;
      assert MarkedBy(prompts, matches, c);
    }
    forall c | c in Known(after) && c !in Known(before)
      ensures c in matched
    {
      assert MarkedBy(prompts, matches, c);
      var j :| 0 <= j < |prompts| && prompts[j].concept == c &&
        !UserQuit(Some(prompts[j].input)) && matches(c, prompts[j].input);
    }
    assert Known(after) == Known(before) + matched;
  }

  /** One more prompt marks its own concept when its answer matches and does
      not quit, and leaves what the earlier prompts marked. */
  lemma MarkedByExtend(prompts: seq<Prompted>, p: Prompted, matches: (string, string) -> bool)
    ensures forall c :: MarkedBy(prompts + [p], matches, c) <==>
      MarkedBy(prompts, matches, c) || (p.concept == c && !UserQuit(Some(p.input)) && matches(c, p.input))
  {
    var all := prompts + [p];
    forall c
      ensures MarkedBy(all, matches, c) <==>
        MarkedBy(prompts, matches, c) || (p.concept == c && !UserQuit(Some(p.input)) && matches(c, p.input))
    {
      if MarkedBy(all, matches, c) {
        var j :| 0 <= j < |all| && all[j].concept == c && !UserQuit(Some(all[j].input)) && matches(c, all[j].input);
        if j < |prompts| {
          assert all[j] == prompts[j];
        }
      }
      if MarkedBy(prompts, matches, c) {
        var j :| 0 <= j < |prompts| && prompts[j].concept == c && !UserQuit(Some(prompts[j].input)) && matches(c, prompts[j].input);
        assert all[j] == prompts[j];
      }
      assert all[|prompts|] == p;
    }
  }

  /*** The rounds of a study ***/

  /** The end of a round that did not quit, after a pass that left the
      guide `played`, read position `mid` and current input `input1`, in a
      round that started with `possible0` points possible. With points left
      and a line to read, the command line at `mid` is read. When it is
      "remove" in any case and one more line exists, that line is read and
      the concept it names is removed, with the outcome `Classify` gives.
      Otherwise the guide is the one the pass left. */
  ghost predicate EndDone(lines: seq<string>, possible0: int, played: map<string, bool>, mid: nat, input1: string,
                          removal: Option<RemoveStatus>, guide: map<string, bool>, pos: nat, input: string)
  {
    var command := |Known(played)| < possible0 && mid < |lines|;
    && (removal.Some? <==> command && mid + 1 < |lines| && IsRemoveCommand(lines[mid]))
    && (removal.Some? ==> pos == mid + 2 && removal.value == Classify(played, lines[mid + 1]))
    && (removal.None? ==> pos == if command then mid + 1 else mid)
    && guide == (if removal == Some(Removed) then played - {lines[mid + 1]} else played)
    && input == if command then lines[mid] else input1
  }

  /** `t` is a round played on `lines`: its pass (`PassDone`) leaves
      `t.played` and reads up to `t.mid`; a round that quits ends right
      there, holding the input that quit; one that does not goes on as
      `EndDone` says. */
  ghost predicate RoundDone(lines: seq<string>, matches: (string, string) -> bool, t: RoundTrace)
  {
    && t.pos0 <= |lines|
    && PassDone(t.guide0, t.played, t.prompts, matches, lines, t.pos0, t.input0, t.quit)
    && t.mid == ReadPos(lines, t.pos0, |t.prompts|)
    && (t.quit ==>
          && t.removal.None? && t.guide == t.played && t.pos == t.mid
          && t.input == LastInput(lines, t.pos0, t.input0, |t.prompts|))
    && (!t.quit ==>
          EndDone(lines, |t.guide0|, t.played, t.mid, LastInput(lines, t.pos0, t.input0, |t.prompts|),
                  t.removal, t.guide, t.pos, t.input))
  }

  /** `study`'s loop guard at the start of round `t`: points are left and
      the current input does not quit. */
  predicate RoundStarts(t: RoundTrace)
  {
    |Known(t.guide0)| < |t.guide0| && !UserQuit(Some(t.input0))
  }

  /** Round `t` did not quit and left the state exactly as it found it, so
      the source would play the same round again, forever. */
  predicate Stalls(t: RoundTrace)
  {
    !t.quit && t.pos == t.pos0 && t.input == t.input0 && t.guide == t.guide0
  }

  /** Round `u` starts where round `t` ended, and `t` neither quit nor
      stalled. */
  predicate Follows(t: RoundTrace, u: RoundTrace)
  {
    !t.quit && !Stalls(t) && u.guide0 == t.guide && u.pos0 == t.pos && u.input0 == t.input
  }

  /** The last round of a non-empty trace. */
  function Last(trace: seq<RoundTrace>): RoundTrace
    requires trace != []
  {
    trace[|trace| - 1]
  }

  /** The report printed after round `t`, when it did not quit. */
  function ReportOf(t: RoundTrace): RoundReport
  {
    RoundReport(|Known(t.played)|, |t.guide0|, 1)
  }

  /** `trace` is the rounds `study` played on `lines` from the guide
      `start`: the first starts at line 0 with the initial input, each later
      one where the previous one ended, and each is played as `RoundDone`
      says from a state where the loop guard holds. */
  ghost predicate Played(lines: seq<string>, matches: (string, string) -> bool, start: map<string, bool>,
                         trace: seq<RoundTrace>)
  {
    && (forall i {:trigger RoundDone(lines, matches, trace[i])} :: 0 <= i < |trace| ==> RoundDone(lines, matches, trace[i]))
    && (forall i :: 0 <= i < |trace| ==> RoundStarts(trace[i]))
    && (trace != [] ==> trace[0].guide0 == start && trace[0].pos0 == 0 && trace[0].input0 == InitialInput)
    && (forall i :: 0 < i < |trace| ==> Follows(trace[i - 1], trace[i]))
  }

  /** One more round, started where the trace left off, extends it. */
  lemma PlayedExtend(lines: seq<string>, matches: (string, string) -> bool, start: map<string, bool>,
                     trace: seq<RoundTrace>, t: RoundTrace)
    requires Played(lines, matches, start, trace)
    requires RoundDone(lines, matches, t) && RoundStarts(t)
    requires trace == [] ==> t.guide0 == start && t.pos0 == 0 && t.input0 == InitialInput
    requires trace != [] ==> Follows(Last(trace), t)
    ensures Played(lines, matches, start, trace + [t])
  {
    var all := trace + [t];
    forall i | 0 <= i < |all|
      ensures RoundDone(lines, matches, all[i]) && RoundStarts(all[i])
    {
      if i < |trace| {
        assert all[i] == trace[i];
        assert RoundDone(lines, matches, trace[i]);
      }
    }
    forall i | 0 < i < |all|
      ensures Follows(all[i - 1], all[i])
    {
      assert all[i - 1] == trace[i - 1];
    }
  }

  /** Part way through `study` on `lines` from the guide `start`: `trace`
      holds the rounds played (`Played`), which end in the current `guide`,
      read position `pos` and `input`; `stalled` says that the last round
      stalled; `reports` has one report per round that did not quit, and
      only the last round can have quit. */
  ghost predicate StudySoFar(lines: seq<string>, matches: (string, string) -> bool, start: map<string, bool>,
                             trace: seq<RoundTrace>, reports: seq<RoundReport>,
                             guide: map<string, bool>, pos: nat, input: string, stalled: bool)
  {
    && Played(lines, matches, start, trace)
    && (trace == [] ==> guide == start && pos == 0 && input == InitialInput && !stalled && reports == [])
    && (trace != [] ==>
          && guide == Last(trace).guide && pos == Last(trace).pos && input == Last(trace).input
          && (stalled <==> Stalls(Last(trace)))
          && (Last(trace).quit ==> UserQuit(Some(input)))
          && |reports| == (if Last(trace).quit then |trace| - 1 else |trace|))
    && forall i :: 0 <= i < |reports| ==> reports[i] == ReportOf(trace[i])
  }

  /** One more round, played where the study left off while the loop guard
      holds, extends the trace; its report is added unless it quit. */
  lemma StudyStep(lines: seq<string>, matches: (string, string) -> bool, start: map<string, bool>,
                  trace: seq<RoundTrace>, reports: seq<RoundReport>,
                  guide: map<string, bool>, pos: nat, input: string,
                  step: RoundTrace, trace': seq<RoundTrace>, reports': seq<RoundReport>,
                  guide': map<string, bool>, pos': nat, input': string, stalled': bool)
    requires StudySoFar(lines, matches, start, trace, reports, guide, pos, input, false)
    requires |Known(guide)| < |guide| && !UserQuit(Some(input))
    requires step.guide0 == guide && step.pos0 == pos && step.input0 == input
    requires RoundDone(lines, matches, step)
    requires step.quit ==> reports' == reports && UserQuit(Some(step.input))
    requires !step.quit ==> reports' == reports + [ReportOf(step)]
    requires stalled' <==> Stalls(step)
    requires trace' == trace + [step] && guide' == step.guide && pos' == step.pos && input' == step.input
    ensures StudySoFar(lines, matches, start, trace', reports', guide', pos', input', stalled')
  {
    PlayedExtend(lines, matches, start, trace, step);
    assert Last(trace') == step;
    assert forall i :: 0 <= i < |trace| ==> trace'[i] == trace[i];
  }

  /** Every concept known in `a` is known in `b`, and `b` has no concept
      `a` lacks: so `b` has at least the points of `a`, and no more possible
      points. */
  lemma {:induction false} KeepsKnownCounts(a: map<string, bool>, b: map<string, bool>)
    requires KeepsKnown(a, b)
    ensures |Known(a)| <= |Known(b)| && |b| <= |a|
  {
    SubsetNoLarger(Known(a), Known(b));
    SubsetNoLarger(b.Keys, a.Keys);
  }

  /** A round keeps every known concept: its pass only marks concepts, and
      a removal deletes only a concept not known. The pass keeps the
      guide's size. */
  lemma {:induction false} RoundKeepsKnown(lines: seq<string>, matches: (string, string) -> bool, t: RoundTrace)
    requires RoundDone(lines, matches, t)
    ensures KeepsKnown(t.guide0, t.played) && KeepsKnown(t.played, t.guide)
    ensures |t.played| == |t.guide0|
  {
    PassFacts(t.guide0, t.played, t.prompts, matches, lines, t.pos0, t.input0, t.quit);
    assert t.played.Keys == t.guide0.Keys;
  }

  /** Along the rounds of a study, a concept known when round `i` starts is
      present and known when a later round `j` starts. */
  lemma {:induction false} PlayedKeepsKnown(lines: seq<string>, matches: (string, string) -> bool,
                                            start: map<string, bool>, trace: seq<RoundTrace>, i: nat, j: nat)
    requires Played(lines, matches, start, trace) && i <= j < |trace|
    ensures KeepsKnown(trace[i].guide0, trace[j].guide0)
    decreases j
  {
    if i < j {
      var t := trace[j - 1];
      PlayedKeepsKnown(lines, matches, start, trace, i, j - 1);
      RoundKeepsKnown(lines, matches, t);
      assert trace[j].guide0 == t.guide;
      KeepsKnownCompose(trace[i].guide0, t.guide0, t.played);
      KeepsKnownCompose(trace[i].guide0, t.played, t.guide);
    }
  }

  /** A concept known after the pass of round `i` is present and known
      when a later round `j` starts. */
  lemma {:induction false} PassKeepsKnown(lines: seq<string>, matches: (string, string) -> bool,
                                          start: map<string, bool>, trace: seq<RoundTrace>, i: nat, j: nat)
    requires Played(lines, matches, start, trace) && i < j < |trace|
    ensures KeepsKnown(trace[i].played, trace[j].guide0)
  {
    RoundKeepsKnown(lines, matches, trace[i]);
    PlayedKeepsKnown(lines, matches, start, trace, i + 1, j);
    assert Follows(trace[i], trace[i + 1]);
    KeepsKnownCompose(trace[i].played, trace[i].guide, trace[j].guide0);
  }

  /** The report of round `i` shows at least the points known at the start
      of the study, out of no more than the guide's size then. */
  lemma {:induction false} ReportBounds(lines: seq<string>, matches: (string, string) -> bool,
                                        start: map<string, bool>, trace: seq<RoundTrace>, i: nat)
    requires Played(lines, matches, start, trace) && i < |trace|
    ensures |Known(start)| <= |Known(trace[i].played)| <= |trace[i].guide0| <= |start|
  {
    var t := trace[i];
    RoundKeepsKnown(lines, matches, t);
    PlayedKeepsKnown(lines, matches, start, trace, 0, i);
    KeepsKnownCompose(start, t.guide0, t.played);
    KeepsKnownCounts(start, t.played);
    KeepsKnownCounts(start, t.guide0);
    KnownWithinGuide(t.played);
  }

  /** The points after the pass of round `i` are no more than the points
      known after the last round. */
  lemma {:induction false} PointsAtMostFinal(lines: seq<string>, matches: (string, string) -> bool,
                                             start: map<string, bool>, trace: seq<RoundTrace>, i: nat)
    requires Played(lines, matches, start, trace) && i < |trace|
    ensures |Known(trace[i].played)| <= |Known(Last(trace).guide)|
  {
    var last := Last(trace);
    if i + 1 < |trace| {
      PointsGrow(lines, matches, start, trace, i, |trace| - 1);
    }
    RoundKeepsKnown(lines, matches, last);
    KeepsKnownCounts(last.played, last.guide);
  }

  /** The points after the pass of round `i` are no more than those after
      the pass of a later round `j`. */
  lemma {:induction false} PointsGrow(lines: seq<string>, matches: (string, string) -> bool,
                                      start: map<string, bool>, trace: seq<RoundTrace>, i: nat, j: nat)
    requires Played(lines, matches, start, trace) && i < j < |trace|
    ensures |Known(trace[i].played)| <= |Known(trace[j].played)|
  {
    PassKeepsKnown(lines, matches, start, trace, i, j);
    RoundKeepsKnown(lines, matches, trace[j]);
    KeepsKnownCompose(trace[i].played, trace[j].guide0, trace[j].played);
    KeepsKnownCounts(trace[i].played, trace[j].played);
  }

  /** The reports of a study's rounds: each is of round 1 and shows at
      least the points known at the start, out of no more than the guide's
      size at the start; the points never drop from one report to the
      next, and none exceeds the final score. The rounds keep every concept
      known at the start. */
  lemma {:induction false} PlayedReports(lines: seq<string>, matches: (string, string) -> bool,
                                         start: map<string, bool>, trace: seq<RoundTrace>,
                                         reports: seq<RoundReport>)
    requires Played(lines, matches, start, trace) && trace != []
    requires |reports| <= |trace|
    requires forall i :: 0 <= i < |reports| ==> reports[i] == ReportOf(trace[i])
    ensures KeepsKnown(start, Last(trace).guide)
    ensures ReportsWithin(reports, |Known(start)|, |start|)
    ensures PointsNeverDrop(reports)
    ensures PointsAtMost(reports, |Known(Last(trace).guide)|)
  {
    var last := Last(trace);
    RoundKeepsKnown(lines, matches, last);
    PlayedKeepsKnown(lines, matches, start, trace, 0, |trace| - 1);
    KeepsKnownCompose(start, last.guide0, last.played);
    KeepsKnownCompose(start, last.played, last.guide);
    forall i | 0 <= i < |reports|
      ensures |Known(start)| <= reports[i].points <= reports[i].possible <= |start|
      ensures reports[i].points <= |Known(last.guide)|
    {
      ReportBounds(lines, matches, start, trace, i);
      PointsAtMostFinal(lines, matches, start, trace, i);
    }
    forall i, j | 0 <= i < j < |reports|
      ensures reports[i].points <= reports[j].points
    {
      PointsGrow(lines, matches, start, trace, i, j);
    }
  }

  /** The current input after a round is the one it started with or a line
      it read. */
  lemma {:induction false} RoundInput(lines: seq<string>, matches: (string, string) -> bool, t: RoundTrace)
    requires RoundDone(lines, matches, t)
    ensures t.pos0 <= t.pos <= |lines|
    ensures t.input == t.input0 || exists k :: t.pos0 <= k < t.pos && t.input == lines[k]
  {
    ReadFacts(lines, t.pos0, t.input0, |t.prompts|);
  }

  /** After round `j` of a study the current input is the initial one or a
      line read by then. */
  lemma {:induction false} PlayedInput(lines: seq<string>, matches: (string, string) -> bool,
                                       start: map<string, bool>, trace: seq<RoundTrace>, j: nat)
    requires Played(lines, matches, start, trace) && j < |trace|
    ensures trace[j].pos <= |lines|
    ensures trace[j].input == InitialInput || exists k :: 0 <= k < trace[j].pos && trace[j].input == lines[k]
    decreases j
  {
    RoundInput(lines, matches, trace[j]);
    if 0 < j {
      PlayedInput(lines, matches, start, trace, j - 1);
      assert Follows(trace[j - 1], trace[j]);
    }
  }

  /** With points left, a quitting first line ends the first round at
      once, with nothing marked, and no other round is played. */
  lemma {:induction false} FirstLineQuits(lines: seq<string>, matches: (string, string) -> bool,
                                          start: map<string, bool>, trace: seq<RoundTrace>)
    requires Played(lines, matches, start, trace) && trace != []
    requires 0 < |lines| && UserQuit(Some(lines[0]))
    ensures |trace| == 1 && trace[0].quit && trace[0].guide == start && UserQuit(Some(trace[0].input))
  {
    var t := trace[0];
    assert RoundDone(lines, matches, t) && RoundStarts(t);
    PassFacts(t.guide0, t.played, t.prompts, matches, lines, t.pos0, t.input0, t.quit);
    assert t.input == t.prompts[|t.prompts| - 1].input;
    assert 1 < |trace| ==> Follows(trace[0], trace[1]);
  }

  /** A round that stalls found no line left to read, and every concept it
      leaves unknown was prompted with the current input, which neither
      quits nor matches it. */
  lemma {:induction false} StallMatchesNothing(lines: seq<string>, matches: (string, string) -> bool, t: RoundTrace)
    requires RoundDone(lines, matches, t) && RoundStarts(t) && Stalls(t)
    ensures t.pos0 == |lines|
    ensures !UserQuit(Some(t.input))
    ensures forall c :: c in t.guide && !t.guide[c] ==> !matches(c, t.input)
  {
    PassFacts(t.guide0, t.played, t.prompts, matches, lines, t.pos0, t.input0, t.quit);
    ReadFacts(lines, t.pos0, t.input0, |t.prompts|);
    forall c | c in t.guide && !t.guide[c]
      ensures !matches(c, t.input)
    {
      var j :| 0 <= j < |t.prompts| && t.prompts[j].concept == c;
      assert t.prompts[j].input == t.input0;
      assert !MarkedBy(t.prompts, matches, c);
    }
  }

  /** `main`: populate the guide and study, reading `lines` as the console's
      input. Returns the ending, the round reports and the number of lines
      read; the ghost result `trace` records the rounds played. */
  method StudySession(lines: seq<string>, matches: (string, string) -> bool)
    returns (ending: Ending, reports: seq<RoundReport>, consumed: nat, ghost trace: seq<RoundTrace>)
    // the rounds played from the seed guide, at least one
    ensures Played(lines, matches, SeedGuide(), trace) && trace != []
    ensures ending.points == |Known(Last(trace).guide)| && ending.possible == |Last(trace).guide|
    ensures consumed == Last(trace).pos
    // why the loop stopped
    ensures ending.Finished? <==> ending.points == ending.possible
    ensures ending.Quit? <==> ending.points < ending.possible && UserQuit(Some(Last(trace).input))
    ensures ending.Stalled? <==>
              ending.points < ending.possible && !UserQuit(Some(Last(trace).input)) && Stalls(Last(trace))
    ensures ending.Stalled? ==>
              forall c :: c in Last(trace).guide && !Last(trace).guide[c] ==> !matches(c, Last(trace).input)
    // one report per round that did not quit
    ensures |reports| == if Last(trace).quit then |trace| - 1 else |trace|
    ensures forall i :: 0 <= i < |reports| ==> reports[i] == ReportOf(trace[i])
    // consequences
    ensures 0 <= ending.points <= ending.possible <= 5
    ensures consumed <= |lines|
    ensures ending.Quit? ==> exists k :: 0 <= k < consumed && UserQuit(Some(lines[k]))
    ensures ending.Stalled? ==> consumed == |lines|
    ensures ReportsWithin(reports, 0, 5)
    ensures PointsNeverDrop(reports)
    ensures PointsAtMost(reports, ending.points)
    ensures |lines| > 0 && UserQuit(Some(lines[0])) ==> ending == Quit(0, 5) && reports == []
  {
    var session := new Session();
    ending, reports, consumed, trace := session.Study(lines, matches);
    KnownWithinGuide(session.guide);
  }
}
