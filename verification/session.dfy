/** The app's session state (murder.py lines 30-44) and the three buttons that
    change it: the setup button, which takes two valid presses before the
    assignments are generated and the session is locked (lines 73-86); the
    reveal button, which shows a participant their target once (lines
    106-112); and the reset button, which lets everybody look again (lines
    116-117). */
module GameSession {
  import opened Assignments
  import opened NameInput

  /** What a press of the setup button leads to. */
  datatype SetupOutcome =
    | Refused(error: SetupError)  // an error message; nothing changes
    | StageAdvanced               // the first valid press: stage 0 becomes 1 and the page reruns
    | Generated                   // assignments made and the session locked

  /** What the reveal section shows for the selected name. */
  datatype RevealOutcome =
    | Shown(target: string)  // the target, shown once
    | AlreadySeen            // a warning instead of the reveal button

  class Session {
    var names: seq<string>
    /** 0 while names are entered, 1 once a valid list has been confirmed once. */
    var stage: int
    var assignments: map<string, string>
    var revealed: set<string>
    var locked: bool
    /** The shuffled order the assignments were read off. */
    ghost var order: seq<string>

    /** The session invariant. Before locking nothing but the stage has been
        touched; once locked, the names are a valid list and the assignments
        are the cycle through a rearrangement of them, and only names of the
        list have been revealed. */
    ghost predicate Valid()
      reads this
    {
      && (stage == 0 || stage == 1)
      && (!locked ==> names == [] && assignments == map[] && revealed == {})
      && (locked ==>
            && stage == 1
            && |names| >= 2 && Distinct(names)
            && multiset(order) == multiset(names) && |order| == |names| && Distinct(order)
            && CycleOf(assignments, order) && assignments.Keys == NameSet(names)
            && revealed <= NameSet(names))
    }

    /** The defaults put into the session state on the first run. */
    constructor ()
      ensures Valid()
      ensures names == [] && stage == 0 && assignments == map[] && revealed == {} && !locked
    {
      names := [];
      stage := 0;
      assignments := map[];
      revealed := {};
      locked := false;
      order := [];
    }

    /** A press of the setup button with `input` in the text area and `seed`
        in the seed field; `shuffle` is the seeded shuffle that
        generate_assignments applies. An invalid list is refused and changes
        nothing. The first valid press only advances the stage, because the
        page reruns at once; a valid press at stage 1 stores the list,
        generates the assignments, clears the revealed set and locks the
        session. */
    method PressSetup(input: string, seed: string, shuffle: (string, seq<string>) -> seq<string>)
      returns (outcome: SetupOutcome)
      requires Valid() && !locked
      requires multiset(shuffle(seed, ParseNames(input))) == multiset(ParseNames(input))
      modifies this
      ensures Valid()
      ensures outcome.Refused? <==> Validate(ParseNames(input)).Rejected?
      ensures outcome.Refused? ==> outcome.error == Validate(ParseNames(input)).error
      ensures outcome == StageAdvanced <==> Validate(ParseNames(input)) == Accepted && old(stage) == 0
      ensures outcome == Generated <==> Validate(ParseNames(input)) == Accepted && old(stage) == 1
      ensures outcome != Generated ==>
                && !locked && names == old(names) && assignments == old(assignments)
                && revealed == old(revealed)
                && stage == (if outcome == StageAdvanced then 1 else old(stage))
      ensures outcome == Generated ==>
                && locked && stage == 1 && revealed == {}
                && names == ParseNames(input)
                && LinksOf(assignments, shuffle(seed, names))
                && CycleOf(assignments, shuffle(seed, names))
                && assignments.Keys == NameSet(names)
                && forall x :: x in assignments ==> assignments[x] != x && assignments[x] in names
    {
      var typed := ParseNames(input);
      var verdict := Validate(typed);
      if verdict.Rejected? {
        outcome := Refused(verdict.error);
      } else if stage == 0 {
        stage := 1;
        outcome := StageAdvanced;
      } else {
        Lock(typed, seed, shuffle);
        outcome := Generated;
      }
    }

    /** Lines 83-86: store the list, generate the assignments, clear the
        revealed set and lock the session. */
    method Lock(typed: seq<string>, seed: string, shuffle: (string, seq<string>) -> seq<string>)
      requires |typed| >= 2 && Distinct(typed) && stage == 1
      requires multiset(shuffle(seed, typed)) == multiset(typed)
      modifies this
      ensures Valid()
      ensures locked && stage == 1 && revealed == {} && names == typed
      ensures LinksOf(assignments, shuffle(seed, typed))
      ensures CycleOf(assignments, shuffle(seed, typed))
      ensures assignments.Keys == NameSet(typed)
      ensures forall x :: x in assignments ==> assignments[x] != x && assignments[x] in typed
    {
      names := typed;
      assignments := GenerateAssignments(typed, seed, shuffle);
      revealed := {};
      locked := true;
      order := shuffle(seed, typed);
      PermutationKeepsDistinct(typed, order);
      LinksOfDistinct(assignments, order);
      assert |order| == |multiset(order)| == |multiset(typed)| == |typed|;
      forall x | x in assignments
        ensures assignments[x] != x && assignments[x] in typed
      {
        TargetIsAnotherName(assignments, order, typed, x);
      }
    }

    /** The reveal section for the participant selected as `name`: a name
        already revealed gets a warning and nothing changes; otherwise the
        button shows the name's target and records the name as revealed. */
    method Reveal(name: string) returns (outcome: RevealOutcome)
      requires Valid() && locked && name in names
      modifies this`revealed
      ensures Valid()
      ensures old(name in revealed) ==> outcome == AlreadySeen && revealed == old(revealed)
      ensures old(name !in revealed) ==> outcome == Shown(assignments[name]) && revealed == old(revealed) + {name}
      ensures outcome.Shown? ==> outcome.target != name && outcome.target in names
    {
      if name in revealed {
        outcome := AlreadySeen;
      } else {
        var recipient := assignments[name];
        TargetIsAnotherName(assignments, order, names, name);
        outcome := Shown(recipient);
        revealed := revealed + {name};
      }
    }

    /** The reset button: everybody may look again; the names and the
        assignments stay as they are. */
    method Reset()
      requires Valid() && locked
      modifies this`revealed
      ensures Valid() && revealed == {}
    {
      revealed := {};
    }
  }

  /** A participant looks, is refused a second look, and after a reset is
      shown the same target again. */
  method RevealResetReveal(s: Session, name: string)
    returns (first: RevealOutcome, second: RevealOutcome, third: RevealOutcome)
    requires s.Valid() && s.locked && name in s.names && name !in s.revealed
    modifies s
    ensures first.Shown? && first.target != name
    ensures second == AlreadySeen
    ensures third == first
  {
    first := s.Reveal(name);
    second := s.Reveal(name);
    s.Reset();
    third := s.Reveal(name);
  }
}
