# MurderGame assignment and reveal core in Dafny

MurderGame is a small Streamlit app for a party game in which each participant
secretly gets one other participant as a target. The app does three things:

- It reads a participant list typed one name per line and checks it.
- It shuffles the list with a seeded pseudo-random generator and assigns each
  name the one after it in the shuffled order, the last name wrapping round to
  the first. For distinct names this is one single cycle through everybody.
- It lets each participant, at a shared device, see their own target once,
  until a global reset lets everybody look again.

The model has three modules:

- `assignments.dfy`, module `Assignments`: `generate_assignments` as a method
  with a loop that fills the dictionary. The predicates `LinksOf` and `CycleOf`
  say what the dictionary is. The lemmas prove what the game relies on: the
  keys are the names, nobody gets themselves, no target is shared, every name
  is a target, and following targets goes round one single cycle. They also
  prove that the result depends on the shuffled order alone.
- `names.dfy`, module `NameInput`: the parsing of the text area as pure
  functions, following Python's `str.splitlines` and `str.strip`. The lemmas
  prove that `Strip` is exactly `str.strip`, and that the names are exactly
  the non-blank stripped lines, in the order of their lines. They also prove
  that filling the text area with the saved names, one per line, and reading
  it back gives the same list. `Validate` is the two checks made before
  generation.
- `session.dfy`, module `GameSession`: the session state as a class `Session`
  with the fields `names`, `stage`, `assignments`, `revealed` and `locked`. It
  has one method per button. `Valid()` is the invariant linking the fields.

A few points of `murder.py` that the model follows exactly:

- `generate_assignments` does not reject short or duplicated lists; only the
  setup button does. `GenerateAssignments` accepts any list. With duplicates, a
  later write to a key replaces an earlier one, and `LinksOf` says exactly that.
- The only reset is global: the reset button empties `revealed` for
  everybody. The reveal section only exists once the session is locked, and
  its name comes from a select box over the stored names. `Reveal` therefore
  requires a locked session and a stored name.
- The first valid press of the setup button only moves `stage` from 0 to 1,
  because `st.rerun()` ends that run. The assignments are generated on the
  second valid press.
- `stage is 0` at line 79 compares identities. For the small integer 0 in
  CPython this is the same as `==`, and the model uses `==`.

The seeded `random.shuffle` on a copy of the list is the parameter
`shuffle: (string, seq<string>) -> seq<string>`, applied to the seed and the
names. It is required to return a rearrangement of the names. Being a
function, it gives the same order for the same seed and names. With
`AssignmentsDeterminedByOrder`, the same names and seed then yield the same
assignments. This holds as long as nothing else reseeds or draws from
Python's process-wide generator between `random.seed` and `random.shuffle`;
see "Left out".

## Model

| member | source | states |
|---|---|---|
| `Assignments.GenerateAssignments` | murder.py:8-17 | The keys are exactly the names. Every target is one of the names. The result is the dictionary the loop leaves for the shuffled order, with the last write to a key winning. For distinct names, the name at each position i is assigned the name at position (i + 1) mod n. |
| `Assignments.LoopResult` | murder.py:13-17 | After the last round, the dictionary covers the same names as the input, even though the loop ran over the shuffled copy. For distinct input names, the dictionary is the cycle through the shuffled order. |
| `Assignments.PermutationKeepsDistinct` | murder.py:10-11 | Shuffling a list of distinct names leaves them distinct. |
| `Assignments.AssignmentsDeterminedByOrder` | murder.py:9-15 | Two dictionaries the loop can leave for the same shuffled order are equal. So, with the shuffled order a function of seed and names, the same names and seed give the same assignments. |
| `Assignments.NoSelfAssignment` | murder.py:14-15 | With two or more distinct names, nobody is assigned themselves. |
| `Assignments.TargetsInjective` | murder.py:14-15 | Two different names never have the same target. |
| `Assignments.TargetsAreAllNames` | murder.py:14-15 | Every target is a name of the order, and every name of the order is somebody's target. |
| `Assignments.TargetIsAnotherName` | murder.py:14-15 | In a shuffled list of two or more distinct names, a participant's target is another participant of the list. |
| `Assignments.FollowAlongCycle` | murder.py:14-15 | Following targets k times from position i reaches position (i + k) mod n. |
| `Assignments.SingleCycle` | murder.py:14-15 | From any name, following targets k times returns to that name exactly when k is a multiple of the number of names. So the assignment is one single cycle with no shorter sub-cycles. |
| `Assignments.OrderMatters` | murder.py:9-15 | With three or more distinct names, swapping the first two places of the shuffled order is another rearrangement of the names and gives different assignments. The shuffle does decide the result. |
| `NameInput.LeadingSpace` | murder.py:67 | Gives the length of the run of whitespace at the start: every character before that position is whitespace, and the one at it is not. |
| `NameInput.TrailingSpace` | murder.py:67 | Gives where the run of whitespace at the end begins: every character from that position on is whitespace, and the one before it is not. |
| `NameInput.Strip` | murder.py:67 | The result neither starts nor ends with whitespace. It is empty exactly when the input is all whitespace. It holds no line break when the input holds none. |
| `NameInput.StripIsTrimmed` | murder.py:67 | The input is a run of whitespace, then the result of `Strip`, then another run of whitespace, and the result is stripped. So the result is the input with its surrounding whitespace cut off, characters in place. |
| `NameInput.StripUnique` | murder.py:67 | Any stripped string that the input surrounds with whitespace on both sides is the result of `Strip`. With `StripIsTrimmed`, this pins `Strip` down as `str.strip`. |
| `NameInput.StripStripped` | murder.py:67 | Stripping a string with no surrounding whitespace returns it unchanged. |
| `NameInput.FirstBreak` | murder.py:67 | Gives the position of the first line break, or the length when there is none. |
| `NameInput.SplitLines` | murder.py:67 | No line holds a line break. Only empty text has no lines. |
| `NameInput.JoinLines` | murder.py:63 | Fills the text area from the saved names. Its length is the lines' total length plus one per gap between consecutive lines; `SplitJoin` and `ParseJoinedNames` prove that reading the text back inverts it. |
| `NameInput.CleanLines` | murder.py:67 | There are never more names than lines. Every name is non-empty and stripped, and it is on one line when the lines are. |
| `NameInput.CleanLinesMembers` | murder.py:67 | A string is a name exactly when it is the non-empty strip of some line. No typed name is lost, and none is invented. |
| `NameInput.CleanLinesAppend` | murder.py:67 | The names from two blocks of lines are the names from the first block followed by those from the second. So the names keep the order of their lines. |
| `NameInput.ParseNames` | murder.py:67 | Every parsed name is non-empty, has no surrounding whitespace and holds no line break. |
| `NameInput.SplitAfterLine` | murder.py:67 | A break-free line followed by any line end that `str.splitlines` recognises ("\r\n", or one line-break character that is not a carriage return before a line feed) splits off as the first line, and the rest splits on its own. With `SplitOneLine` this fixes the lines of every text. |
| `NameInput.SplitOneLine` | murder.py:67 | A non-empty text without line breaks is a single line. |
| `NameInput.SplitJoin` | murder.py:63-67 | Joining line-break-free lines with "\n" and splitting the text again gives the lines back, provided the last line is not empty. |
| `NameInput.ParseJoinedNames` | murder.py:63-67 | Filling the text area with clean saved names, one per line, and parsing it gives the same list back. |
| `NameInput.Validate` | murder.py:74-77 | A list is accepted exactly when it has at least two names and no name twice. It is refused as too short exactly when it has fewer than two names. It is refused for duplicates exactly when it is long enough but has a repeated name. |
| `NameInput.NameSetSize` | murder.py:76 | A list never has more distinct names than entries. It has as many exactly when no name occurs twice. So `len(set(names)) != len(names)` detects duplicates. |
| `GameSession.Session.constructor` | murder.py:30-44 | A new session has no names, stage 0, no assignments, nothing revealed and is not locked. It satisfies the invariant. |
| `GameSession.Session.PressSetup` | murder.py:67-88 | A list that fails validation is refused with that check's error and changes nothing. The first valid press at stage 0 only sets stage to 1. A valid press at stage 1 stores the parsed names, generates the assignments from the seeded shuffle, empties `revealed` and locks the session. After that, the keys are the names, nobody has themselves, and the assignments link the shuffled names into one cycle. |
| `GameSession.Session.Lock` | murder.py:83-86 | Stores the names, sets the assignments to the loop's result for the shuffled order, clears `revealed` and sets `locked`. The assignments link each shuffled name to the next and the last to the first. Re-establishes the invariant. |
| `GameSession.Session.Reveal` | murder.py:106-112 | A name not yet revealed gets its assigned target, which is another participant, and exactly that name is added to `revealed`. A name already revealed gets the warning, and nothing changes. |
| `GameSession.Session.Reset` | murder.py:116-117 | Empties `revealed`. Names, stage and assignments stay as they were, and the invariant holds. |
| `GameSession.RevealResetReveal` | murder.py:106-117 | A first reveal shows a target other than the participant. A second one only warns. After a reset, a reveal shows the same target as the first. |

## Left out

- The Streamlit page is left out: page config, subheaders, text inputs, text area, buttons, select box, toasts, messages, dividers and `st.rerun()`. A button press is a method call. A rerun ends the method.
- The local-storage reads and writes of seed, names and selected name (lines 27, 47-54, 87-88, 101-104) are foreign I/O and are left out.
- Python's Mersenne Twister behind `random.seed` and `random.shuffle` is left out, because its code is not part of this model. The model keeps only that the seeded shuffle is a deterministic rearrangement of its input.
- The default index of the name select box (lines 94-99) is left out. It only chooses which name the box shows first, and any name it can show is a stored name, as `Reveal` requires.
- The `button_text` enum and the German message texts (lines 19-21, 69) are left out; they are display text only.
- GenerateAssignments: the in-place shuffle of a copied list is modelled on values. That the caller's list is left alone holds because a Dafny sequence is a value, not because a copy is made.
- Python's `random` generator is one per process, shared by every Streamlit session the process serves. If another session calls `random.seed` or `random.shuffle` between lines 9 and 11, the order drawn changes, and the same names and seed then need not give the same assignments. The model treats the seeded shuffle as a function of seed and names and does not capture this race.
- `murder.py` has no hand-off to the next participant, no minimum display time, no per-name reset, no all-revealed query and no error for an unknown name or a missing mapping, so the model has none either.
