/**
  The confirmation step of the G04 script: two yes/no questions read from the
  console. Each answer is stripped and lower-cased; anything but "oui" or "non"
  asks the same question again; the first "non" stops the script.
*/
module PreFlight {

  import opened Common

  const YES := "oui"
  const NO := "non"
  /** The script asks two questions (sheet called, week set). */
  const QUESTION_COUNT: nat := 2

  datatype Verdict =
    | Proceed           // both questions answered "oui"
    | Abort             // a "non": `exit()`
    | InputExhausted    // the console closed before the questions were answered (EOFError)

  /** The code points Python's `str.strip()` removes. */
  const WHITESPACE: set<int> :=
    {0x09, 0x0A, 0x0B, 0x0C, 0x0D, 0x1C, 0x1D, 0x1E, 0x1F, 0x20, 0x85, 0xA0, 0x1680,
     0x2000, 0x2001, 0x2002, 0x2003, 0x2004, 0x2005, 0x2006, 0x2007, 0x2008, 0x2009, 0x200A,
     0x2028, 0x2029, 0x202F, 0x205F, 0x3000}

  predicate IsSpace(c: char)
  {
    c as int in WHITESPACE
  }

  /** `s` without its leading blanks. */
  function StripLeading(s: string): string
  {
    if s != [] && IsSpace(s[0]) then StripLeading(s[1..]) else s
  }

  /** `s` without its trailing blanks. */
  function StripTrailing(s: string): string
  {
    if s != [] && IsSpace(s[|s| - 1]) then StripTrailing(s[..|s| - 1]) else s
  }

  /** Stripping the front removes exactly the leading blanks and nothing else. */
  lemma {:induction false} StripLeadingRemovesBlanks(s: string)
    ensures var r := StripLeading(s);
      && |r| <= |s| && r == s[|s| - |r|..]
      && (r == [] || !IsSpace(r[0]))
      && forall k :: 0 <= k < |s| - |r| ==> IsSpace(s[k])
  {
    if s != [] && IsSpace(s[0]) {
      var t := s[1..];
      StripLeadingRemovesBlanks(t);
      var r := StripLeading(t);
      assert t[|t| - |r|..] == s[|s| - |r|..];
      forall k | 0 < k < |s| - |r| ensures IsSpace(s[k]) {
        assert s[k] == t[k - 1];
      }
    }
  }

  /** Stripping the back removes exactly the trailing blanks and nothing else. */
  lemma {:induction false} StripTrailingRemovesBlanks(s: string)
    ensures var r := StripTrailing(s);
      && |r| <= |s| && r == s[..|r|]
      && (r == [] || !IsSpace(r[|r| - 1]))
      && forall k :: |r| <= k < |s| ==> IsSpace(s[k])
  {
    if s != [] && IsSpace(s[|s| - 1]) {
      var t := s[..|s| - 1];
      StripTrailingRemovesBlanks(t);
      var r := StripTrailing(t);
      assert t[..|r|] == s[..|r|];
      forall k | |r| <= k < |s| - 1 ensures IsSpace(s[k]) {
        assert s[k] == t[k];
      }
    }
  }

  /** Lower-casing of the letters A to Z; other characters are kept. */
  function LowerChar(c: char): char
  {
    if 'A' <= c <= 'Z' then (c as int + 32) as char else c
  }

  function Lower(s: string): string
  {
    seq(|s|, i requires 0 <= i < |s| => LowerChar(s[i]))
  }

  /** `response.strip().lower()`. */
  function Normalise(s: string): string
  {
    Lower(StripTrailing(StripLeading(s)))
  }

  /** An accepted answer. */
  datatype Answer = Yes | No

  /** The answer a line gives once normalised, if it is "oui" or "non". */
  function Parse(s: string): Option<Answer>
  {
    if Normalise(s) == YES then Some(Yes)
    else if Normalise(s) == NO then Some(No)
    else None
  }

  predicate IsAnswer(s: string)
  {
    Parse(s).Some?
  }

  /** The accepted answers of a console transcript, in order; the other lines are re-prompts. */
  function Decisions(answers: seq<string>): (d: seq<Answer>)
    ensures |d| <= |answers|
  {
    if answers == [] then []
    else
      var last := answers[|answers| - 1];
      Decisions(answers[..|answers| - 1]) + (if IsAnswer(last) then [Parse(last).value] else [])
  }

  /** When every line is "oui" or "non", there is one decision per line, each the line's answer. */
  lemma {:induction false} EveryLineAnswers(answers: seq<string>)
    requires forall k :: 0 <= k < |answers| ==> IsAnswer(answers[k])
    ensures |Decisions(answers)| == |answers|
    ensures forall k :: 0 <= k < |answers| ==> Some(Decisions(answers)[k]) == Parse(answers[k])
  {
    if answers != [] {
      var n := |answers| - 1;
      var init := answers[..n];
      assert forall k :: 0 <= k < |init| ==> init[k] == answers[k];
      EveryLineAnswers(init);
      var d := Decisions(answers);
      assert IsAnswer(answers[n]);
      assert d == Decisions(init) + [Parse(answers[n]).value];
      forall k | 0 <= k < |answers| ensures Some(d[k]) == Parse(answers[k]) {
        if k < n {
          assert d[k] == Decisions(init)[k];
        }
      }
    }
  }

  /** The decisions made on part of the transcript begin the decisions of the whole. */
  lemma {:induction false} DecisionsPrefix(answers: seq<string>, p: nat)
    requires p <= |answers|
    ensures Decisions(answers[..p]) <= Decisions(answers)
    decreases |answers| - p
  {
    if p < |answers| {
      DecisionsPrefix(answers, p + 1);
      assert answers[..p + 1][..p] == answers[..p];
    } else {
      assert answers[..p] == answers;
    }
  }

  predicate AllYes(d: seq<Answer>)
  {
    forall i :: 0 <= i < |d| ==> d[i] == Yes
  }

  /** Both questions were confirmed: the first two decisions are "oui". */
  predicate Confirmed(answers: seq<string>)
  {
    |Decisions(answers)| >= QUESTION_COUNT && AllYes(Decisions(answers)[..QUESTION_COUNT])
  }

  /** One of the questions was answered "non". */
  predicate Refused(answers: seq<string>)
  {
    exists i :: 0 <= i < QUESTION_COUNT && i < |Decisions(answers)| && Decisions(answers)[i] == No
  }

  /** A line that is not an answer adds no decision. */
  lemma Rejected(answers: seq<string>, p: nat)
    requires 0 < p <= |answers| && !IsAnswer(answers[p - 1])
    ensures Decisions(answers[..p]) == Decisions(answers[..p - 1])
  {
    assert answers[..p][..p - 1] == answers[..p - 1];
  }

  /** An answer adds itself to the decisions made before it. */
  lemma Accepted(answers: seq<string>, p: nat)
    requires 0 < p <= |answers| && IsAnswer(answers[p - 1])
    ensures Decisions(answers[..p]) == Decisions(answers[..p - 1]) + [Parse(answers[p - 1]).value]
  {
    assert answers[..p][..p - 1] == answers[..p - 1];
  }

  /** A "non" after fewer than two "oui" decisions refuses the whole transcript. */
  lemma Refuses(answers: seq<string>, p: nat, before: seq<Answer>)
    requires p <= |answers|
    requires |before| < QUESTION_COUNT && AllYes(before)
    requires Decisions(answers[..p]) == before + [No]
    ensures Refused(answers) && !Confirmed(answers)
  {
    var all := Decisions(answers);
    DecisionsPrefix(answers, p);
    assert all[..|before| + 1] == before + [No];
    assert all[|before|] == No;
  }

  /** Two "oui" decisions on the first p lines confirm the whole transcript. */
  lemma Confirms(answers: seq<string>, p: nat)
    requires p <= |answers|
    requires |Decisions(answers[..p])| == QUESTION_COUNT && AllYes(Decisions(answers[..p]))
    ensures Confirmed(answers) && !Refused(answers)
    ensures Decisions(answers[..p]) == Decisions(answers)[..QUESTION_COUNT]
  {
    var all := Decisions(answers);
    DecisionsPrefix(answers, p);
    assert all[..|Decisions(answers[..p])|] == Decisions(answers[..p]);
  }

  /**
    One question: `input(question).strip().lower()`, asked again until the
    answer is "oui" or "non". `None` when the console closes first (EOFError).
    Lines `start` to `next - 1` are read.
  */
  method AskQuestion(answers: seq<string>, start: nat) returns (response: Option<Answer>, next: nat)
    requires start <= |answers|
    ensures start <= next <= |answers|
    ensures response.None? ==> next == |answers| && Decisions(answers[..next]) == Decisions(answers[..start])
    ensures response.Some? ==>
              && start < next && response == Parse(answers[next - 1])
              && Decisions(answers[..next - 1]) == Decisions(answers[..start])
              && Decisions(answers[..next]) == Decisions(answers[..start]) + [response.value]
  {
    next := start;
    if next == |answers| {
      return None, next;
    }
    var reply := Normalise(answers[next]);
    next := next + 1;
    while reply != YES && reply != NO
      invariant start < next <= |answers|
      invariant reply == Normalise(answers[next - 1])
      invariant Decisions(answers[..next - 1]) == Decisions(answers[..start])
      decreases |answers| - next
    {
      Rejected(answers, next);
      if next == |answers| {
        return None, next;
      }
      reply := Normalise(answers[next]);
      next := next + 1;
    }
    Accepted(answers, next);
    return Some(if reply == YES then Yes else No), next;
  }

  /**
    `pre_execution_questions` over a console transcript. `consumed` is the number
    of lines read.
  */
  method PreExecutionQuestions(answers: seq<string>) returns (verdict: Verdict, consumed: nat)
    ensures consumed <= |answers|
    ensures verdict == Proceed <==> Confirmed(answers)
    ensures verdict == Abort <==> Refused(answers)
    ensures verdict == InputExhausted ==> consumed == |answers|
    ensures verdict == Abort ==>
              && 0 < consumed
              && Normalise(answers[consumed - 1]) == NO
              && AllYes(Decisions(answers[..consumed - 1]))
    ensures verdict == Proceed ==>
              && 0 < consumed && IsAnswer(answers[consumed - 1])
              && Decisions(answers[..consumed]) == Decisions(answers)[..QUESTION_COUNT]
  {
    consumed := 0;
    for q := 0 to QUESTION_COUNT
      invariant consumed <= |answers|
      invariant |Decisions(answers[..consumed])| == q && AllYes(Decisions(answers[..consumed]))
      invariant 0 < q ==> 0 < consumed && IsAnswer(answers[consumed - 1])
    {
      ghost var before := Decisions(answers[..consumed]);
      var response: Option<Answer>;
      response, consumed := AskQuestion(answers, consumed);
      if response.None? {
        assert answers[..consumed] == answers;
        return InputExhausted, consumed;
      }
      if response.value == No {
        Refuses(answers, consumed, before);
        return Abort, consumed;
      }
    }
    Confirms(answers, consumed);
    return Proceed, consumed;
  }
}
