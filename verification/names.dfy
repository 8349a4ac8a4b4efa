/** The participant list as the setup screen reads it: one name per line of
    the text area, each stripped of surrounding whitespace, blank lines
    dropped (murder.py line 67); and the check made before assignments are
    generated: at least two names, none twice (lines 74-77). */
module NameInput {
  import opened Assignments

  /** The characters at which Python's str.splitlines ends a line. */
  predicate IsLineBreak(c: char)
  {
    || c == '\n' || c == '\r' || c == '\U{B}' || c == '\U{C}' || c == '\U{1C}' || c == '\U{1D}'
    || c == '\U{1E}' || c == '\U{85}' || c == '\U{2028}' || c == '\U{2029}'
  }

  /** The characters Python's str.strip removes (those for which str.isspace
      holds); every line break is one of them. */
  predicate IsSpace(c: char)
  {
    || IsLineBreak(c)
    || c == ' ' || c == '\t' || c == '\U{1F}' || c == '\U{A0}' || c == '\U{1680}'
    || c == '\U{202F}' || c == '\U{205F}' || c == '\U{3000}'
    || '\U{2000}' <= c <= '\U{200A}'
  }

  /** Neither the first nor the last character is whitespace. */
  predicate Stripped(s: string)
  {
    s == [] || (!IsSpace(s[0]) && !IsSpace(s[|s| - 1]))
  }

  /** No character of s ends a line. */
  predicate OneLine(s: string)
  {
    forall i :: 0 <= i < |s| ==> !IsLineBreak(s[i])
  }

  /** No entry of ss holds a line break. */
  predicate AllOneLine(ss: seq<string>)
  {
    forall i :: 0 <= i < |ss| ==> OneLine(ss[i])
  }

  /** Every entry of ns is non-empty and stripped. */
  predicate AllStripped(ns: seq<string>)
  {
    forall i :: 0 <= i < |ns| ==> ns[i] != [] && Stripped(ns[i])
  }

  /** A name as it can come out of the text area: not empty, stripped and on
      one line. */
  predicate CleanName(s: string)
  {
    s != [] && Stripped(s) && OneLine(s)
  }

  /** Every character of s is whitespace. */
  predicate AllSpace(s: string)
  {
    forall i :: 0 <= i < |s| ==> IsSpace(s[i])
  }

  /** The length of the run of whitespace at the start of s. */
  function LeadingSpace(s: string): (k: nat)
    ensures k <= |s|
    ensures forall i :: 0 <= i < k ==> IsSpace(s[i])
    ensures k < |s| ==> !IsSpace(s[k])
  {
    if s != [] && IsSpace(s[0]) then 1 + LeadingSpace(s[1..]) else 0
  }

  /** Where the run of whitespace at the end of s begins. */
  function TrailingSpace(s: string): (k: nat)
    ensures k <= |s|
    ensures forall i :: k <= i < |s| ==> IsSpace(s[i])
    ensures k > 0 ==> !IsSpace(s[k - 1])
  {
    if s != [] && IsSpace(s[|s| - 1]) then TrailingSpace(s[..|s| - 1]) else |s|
  }

  /** s is r with a run of whitespace before it and another after it. */
  predicate Pads(s: string, lead: string, r: string, trail: string)
  {
    s == lead + r + trail && AllSpace(lead) && AllSpace(trail)
  }

  /** str.strip(): the part of s between its leading and its trailing
      whitespace. */
  function Strip(s: string): (r: string)
    ensures Stripped(r)
    ensures r == [] <==> AllSpace(s)
    ensures OneLine(s) ==> OneLine(r)
  {
    var a, b := LeadingSpace(s), TrailingSpace(s);
    if a < b then
      assert forall j :: 0 <= j < b - a ==> s[a..b][j] == s[a + j];
      s[a..b]
    else
      assert AllSpace(s) by {
        forall i | 0 <= i < |s|
          ensures IsSpace(s[i])
        {
          if i >= a {
            assert i >= b;
          }
        }
      }
      []
  }

  /** The result of str.strip is s without a run of whitespace at its start
      and another at its end, and it neither starts nor ends with whitespace;
      together these two facts fix it. */
  lemma StripIsTrimmed(s: string)
    ensures Stripped(Strip(s))
    ensures exists lead, trail :: Pads(s, lead, Strip(s), trail)
  {
    var a, b := LeadingSpace(s), TrailingSpace(s);
    if a < b {
      CutThree(s, a, b);
      assert Pads(s, s[..a], Strip(s), s[b..]);
    } else {
      assert s == s + [] + [];
      assert Pads(s, s, Strip(s), []);
    }
  }

  /** Conversely, any stripped r that s pads with whitespace on both sides is
      the strip of s. */
  lemma StripUnique(s: string, lead: string, r: string, trail: string)
    requires Pads(s, lead, r, trail) && Stripped(r)
    ensures r == Strip(s)
  {
    PadsAt(s, lead, r, trail);
    var e := |lead| + |r|;
    if r == [] {
      assert AllSpace(s);
    } else {
      assert !IsSpace(s[|lead|]) by {
        assert s[|lead|] == s[|lead|..e][0];
      }
      assert !IsSpace(s[e - 1]) by {
        assert s[e - 1] == s[|lead|..e][|r| - 1];
      }
      assert LeadingSpace(s) == |lead|;
      assert TrailingSpace(s) == e;
    }
  }

  /** Where the pieces of a padded string lie in it. */
  lemma PadsAt(s: string, lead: string, r: string, trail: string)
    requires Pads(s, lead, r, trail)
    ensures |s| == |lead| + |r| + |trail|
    ensures s[|lead|..|lead| + |r|] == r
    ensures forall i :: 0 <= i < |lead| ==> IsSpace(s[i])
    ensures forall i :: |lead| + |r| <= i < |s| ==> IsSpace(s[i])
  {
    var e := |lead| + |r|;
    forall i | 0 <= i < |lead|
      ensures IsSpace(s[i])
    {
      assert s[i] == lead[i];
    }
    forall i | e <= i < |s|
      ensures IsSpace(s[i])
    {
      assert s[i] == trail[i - e];
    }
    assert s[|lead|..e] == r;
  }

  /** Cutting s at a and at b gives three pieces that make up s again; the
      first and last are whitespace when s is whitespace there. */
  lemma CutThree(s: string, a: int, b: int)
    requires 0 <= a <= b <= |s|
    ensures s == s[..a] + s[a..b] + s[b..]
    ensures (forall i :: 0 <= i < a ==> IsSpace(s[i])) ==> AllSpace(s[..a])
    ensures (forall i :: b <= i < |s| ==> IsSpace(s[i])) ==> AllSpace(s[b..])
  {
    forall i | 0 <= i < |s| - b
      ensures s[b..][i] == s[b + i]
    {
    }
  }

  /** A stripped string is its own strip. */
  lemma StripStripped(s: string)
    requires Stripped(s)
    ensures Strip(s) == s
  {
  }

  /** The position of the first line break in s, or |s| if there is none. */
  function FirstBreak(s: string): (k: nat)
    ensures k <= |s|
    ensures forall i :: 0 <= i < k ==> !IsLineBreak(s[i])
    ensures k < |s| ==> IsLineBreak(s[k])
  {
    if s == [] || IsLineBreak(s[0]) then 0 else 1 + FirstBreak(s[1..])
  }

  /** str.splitlines(): the lines of s without their line ends. A carriage
      return followed by a line feed ends one line, and a line end at the very
      end of s does not start another, empty, line. */
  function SplitLines(s: string): (lines: seq<string>)
    ensures forall i :: 0 <= i < |lines| ==> OneLine(lines[i])
    ensures s == [] <==> lines == []
    decreases |s|
  {
    if s == [] then []
    else
      var k := FirstBreak(s);
      if k == |s| then [s]
      else
        var next := if s[k] == '\r' && k + 1 < |s| && s[k + 1] == '\n' then k + 2 else k + 1;
        [s[..k]] + SplitLines(s[next..])
  }

  /** The number of characters in all the lines together. */
  function TotalLength(lines: seq<string>): nat
  {
    if lines == [] then 0 else |lines[0]| + TotalLength(lines[1..])
  }

  /** "\n".join(lines), as the text area is filled from the saved names: the
      characters of the lines with one line feed between each two
      consecutive lines and nothing else. */
  function JoinLines(lines: seq<string>): (text: string)
    ensures lines != [] ==> |text| == TotalLength(lines) + |lines| - 1
  {
    if lines == [] then ""
    else if |lines| == 1 then lines[0]
    else lines[0] + "\n" + JoinLines(lines[1..])
  }

  /** Every line stripped of surrounding whitespace, in order. */
  function StripAll(lines: seq<string>): (stripped: seq<string>)
    ensures |stripped| == |lines|
    ensures forall i :: 0 <= i < |lines| ==> stripped[i] == Strip(lines[i])
  {
    if lines == [] then [] else [Strip(lines[0])] + StripAll(lines[1..])
  }

  /** Stripping the lines of two lists one after the other. */
  lemma {:induction false} StripAllAppend(a: seq<string>, b: seq<string>)
    ensures StripAll(a + b) == StripAll(a) + StripAll(b)
  {
    if a == [] {
      assert a + b == b;
    } else {
      assert (a + b)[0] == a[0] && (a + b)[1..] == a[1..] + b;
      StripAllAppend(a[1..], b);
    }
  }

  /** The entries of xs that are not empty, in their order. */
  function NonBlank(xs: seq<string>): (ys: seq<string>)
    ensures |ys| <= |xs|
    ensures forall y :: y in ys ==> y in xs && y != []
  {
    if xs == [] then []
    else if xs[0] == [] then NonBlank(xs[1..])
    else [xs[0]] + NonBlank(xs[1..])
  }

  /** Dropping the empty entries of two lists one after the other. */
  lemma {:induction false} NonBlankAppend(xs: seq<string>, ys: seq<string>)
    ensures NonBlank(xs + ys) == NonBlank(xs) + NonBlank(ys)
  {
    if xs == [] {
      assert xs + ys == ys;
    } else {
      assert (xs + ys)[0] == xs[0] && (xs + ys)[1..] == xs[1..] + ys;
      NonBlankAppend(xs[1..], ys);
    }
  }

  /** Dropping the empty entries keeps every other entry and adds none. */
  lemma {:induction false} NonBlankMembers(xs: seq<string>, x: string)
    ensures x in NonBlank(xs) <==> x in xs && x != []
  {
    if xs != [] {
      NonBlankMembers(xs[1..], x);
      assert xs == [xs[0]] + xs[1..];
    }
  }

  /** A list without empty entries is left as it is. */
  lemma {:induction false} NonBlankOfNonEmpty(xs: seq<string>)
    requires forall i :: 0 <= i < |xs| ==> xs[i] != []
    ensures NonBlank(xs) == xs
  {
    if xs != [] {
      NonBlankOfNonEmpty(xs[1..]);
      assert xs == [xs[0]] + xs[1..];
    }
  }

  /** Each line stripped of surrounding whitespace, the blank results
      dropped, the order kept. */
  function CleanLines(lines: seq<string>): (names: seq<string>)
    ensures |names| <= |lines|
    ensures AllStripped(names)
    ensures AllOneLine(lines) ==> AllOneLine(names)
  {
    CleanEntries(lines);
    NonBlank(StripAll(lines))
  }

  /** Every name the text gives is a stripped line, and on one line when the
      lines are. */
  lemma CleanEntries(lines: seq<string>)
    ensures AllStripped(NonBlank(StripAll(lines)))
    ensures AllOneLine(lines) ==> AllOneLine(NonBlank(StripAll(lines)))
  {
    var stripped := StripAll(lines);
    var names := NonBlank(stripped);
    forall k | 0 <= k < |names|
      ensures names[k] != [] && Stripped(names[k])
      ensures AllOneLine(lines) ==> OneLine(names[k])
    {
      assert names[k] in stripped;
      var i :| 0 <= i < |stripped| && stripped[i] == names[k];
      assert names[k] == Strip(lines[i]);
    }
  }

  /** The participant list read from the text of the setup text area. */
  function ParseNames(input: string): (names: seq<string>)
    ensures forall i :: 0 <= i < |names| ==> CleanName(names[i])
  {
    CleanLines(SplitLines(input))
  }

  /** Cleaning the lines of two pieces of text one after the other gives the
      names of the first piece followed by those of the second. */
  lemma CleanLinesAppend(a: seq<string>, b: seq<string>)
    ensures CleanLines(a + b) == CleanLines(a) + CleanLines(b)
  {
    StripAllAppend(a, b);
    NonBlankAppend(StripAll(a), StripAll(b));
  }

  /** No typed name is lost and none is invented: the names are exactly the
      non-blank stripped lines. */
  lemma CleanLinesMembers(lines: seq<string>, x: string)
    ensures x in CleanLines(lines) <==> exists i :: 0 <= i < |lines| && Strip(lines[i]) == x && x != []
  {
    var stripped := StripAll(lines);
    NonBlankMembers(stripped, x);
    if x in stripped {
      var i :| 0 <= i < |stripped| && stripped[i] == x;
      assert Strip(lines[i]) == x;
    }
    if exists i :: 0 <= i < |lines| && Strip(lines[i]) == x && x != [] {
      var i :| 0 <= i < |lines| && Strip(lines[i]) == x && x != [];
      assert stripped[i] == x;
    }
  }

  /** Splitting a line followed by a line feed and more text gives the line
      and then the lines of the rest. */
  /** A line end str.splitlines() recognises in front of rest: a carriage
      return and line feed pair, or one line-break character, except a
      carriage return that a line feed follows (the pair ends the line then). */
  predicate EndsLine(e: string, rest: string)
  {
    || e == "\r\n"
    || (|e| == 1 && IsLineBreak(e[0]) && !(e[0] == '\r' && rest != [] && rest[0] == '\n'))
  }

  /** A line followed by any line end splits off as the first line, and the
      rest of the text splits on its own. */
  lemma SplitAfterLine(line: string, e: string, rest: string)
    requires OneLine(line) && EndsLine(e, rest)
    ensures SplitLines(line + e + rest) == [line] + SplitLines(rest)
  {
    var s := line + e + rest;
    assert s[|line|] == e[0];
    assert FirstBreak(s) == |line|;
    assert s[..|line|] == line;
    if e == "\r\n" {
      assert s[|line| + 1] == '\n';
      assert s[|line| + 2..] == rest;
    } else {
      assert s[|line| + 1..] == rest;
    }
  }

  /** Text without line breaks is one line, unless it is empty. */
  lemma SplitOneLine(line: string)
    requires OneLine(line) && line != []
    ensures SplitLines(line) == [line]
  {
    assert FirstBreak(line) == |line|;
  }

  /** Joining lines with line feeds and splitting the text again gives the
      lines back, provided none of them holds a line break and the last one is
      not empty. */
  lemma {:induction false} SplitJoin(lines: seq<string>)
    requires forall i :: 0 <= i < |lines| ==> OneLine(lines[i])
    requires lines == [] || lines[|lines| - 1] != []
    ensures SplitLines(JoinLines(lines)) == lines
    decreases |lines|
  {
    if |lines| == 1 {
      SplitOneLine(lines[0]);
    } else if |lines| > 1 {
      SplitJoin(lines[1..]);
      SplitAfterLine(lines[0], "\n", JoinLines(lines[1..]));
    }
  }

  /** Clean names pass through the strip-and-drop-blanks step unchanged. */
  lemma CleanLinesOfClean(names: seq<string>)
    requires forall i :: 0 <= i < |names| ==> CleanName(names[i])
    ensures CleanLines(names) == names
  {
    forall i | 0 <= i < |names|
      ensures StripAll(names)[i] == names[i]
    {
      StripStripped(names[i]);
    }
    assert StripAll(names) == names;
    NonBlankOfNonEmpty(names);
  }

  /** The text area is filled with the saved names, one per line; reading it
      back without edits gives exactly the saved list. */
  lemma ParseJoinedNames(names: seq<string>)
    requires forall i :: 0 <= i < |names| ==> CleanName(names[i])
    ensures ParseNames(JoinLines(names)) == names
  {
    SplitJoin(names);
    CleanLinesOfClean(names);
  }

  /** Why the setup button refuses a list. */
  datatype SetupError = TooFewNames | DuplicateNames

  /** The outcome of the check made when the setup button is pressed. */
  datatype Verdict = Accepted | Rejected(error: SetupError)

  /** The checks of lines 74-77, in their order: fewer than two names first,
      then a set of the names smaller than the list. */
  function Validate(names: seq<string>): (r: Verdict)
    ensures r == Accepted <==> |names| >= 2 && Distinct(names)
    ensures r == Rejected(TooFewNames) <==> |names| < 2
    ensures r == Rejected(DuplicateNames) <==> |names| >= 2 && !Distinct(names)
  {
    NameSetSize(names);
    if |names| < 2 then Rejected(TooFewNames)
    else if |NameSet(names)| != |names| then Rejected(DuplicateNames)
    else Accepted
  }

  /** A list has as many different names as entries exactly when no name
      occurs twice; otherwise it has fewer. */
  lemma {:induction false} NameSetSize(s: seq<string>)
    ensures |NameSet(s)| <= |s|
    ensures |NameSet(s)| == |s| <==> Distinct(s)
  {
    if s != [] {
      var t := s[1..];
      NameSetSize(t);
      assert NameSet(s) == {s[0]} + NameSet(t);
      if s[0] in t {
        var j :| 0 <= j < |t| && t[j] == s[0];
        assert s[j + 1] == s[0];
      } else {
        assert Distinct(s) <==> Distinct(t) by {
          if Distinct(t) {
            forall i, j | 0 <= i < j < |s|
              ensures s[i] != s[j]
            {
              if i > 0 {
                assert s[i] == t[i - 1] && s[j] == t[j - 1];
              } else {
                assert s[j] == t[j - 1];
              }
            }
          }
        }
      }
    }
  }
}
