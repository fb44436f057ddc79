// The dependency notices (xtask/src/notices.rs): the capped difference between
// two texts, line by line, and the normalizer of generated text.

module Notices {
  import opened TextSearch
  import opened Wrappers

  // --- The lines one text has and another lacks ---

  /** The lines left over when each line cancels one equal line of the others while any is left. */
  function Excess(lines: seq<string>, others: multiset<string>): seq<string> {
    if lines == [] then []
    else if lines[0] in others then Excess(lines[1..], others - multiset{lines[0]})
    else [lines[0]] + Excess(lines[1..], others)
  }

  function MissingLines(source: string, other: string): seq<string> {
    Excess(Lines(source), multiset(Lines(other)))
  }

  function Capped(lines: seq<string>, cap: nat): (shown: seq<string>)
    ensures shown <= lines && |shown| == Min(cap, |lines|)
  {
    lines[..Min(cap, |lines|)]
  }

  ghost predicate CountsAre(counts: map<string, nat>, lines: multiset<string>) {
    forall line :: lines[line] == if line in counts then counts[line] else 0
  }

  method CountLines(text: string) returns (counts: map<string, nat>)
    ensures CountsAre(counts, multiset(Lines(text)))
  {
    var lines := Lines(text);
    counts := map[];
    for i := 0 to |lines|
      invariant CountsAre(counts, multiset(lines[..i]))
    {
      assert lines[..i + 1] == lines[..i] + [lines[i]];
      counts := counts[lines[i] := (if lines[i] in counts then counts[lines[i]] else 0) + 1];
    }
    assert lines[..|lines|] == lines;
  }

  /** One round of the loop: a line cancels, is shown while there is room, or is dropped. */
  lemma ExcessNext(lines: seq<string>, i: nat, others: multiset<string>)
    requires i < |lines|
    ensures Excess(lines[i..], others) ==
              if others[lines[i]] > 0 then Excess(lines[i + 1..], others - multiset{lines[i]})
              else [lines[i]] + Excess(lines[i + 1..], others)
  {
    assert lines[i..][0] == lines[i] && lines[i..][1..] == lines[i + 1..];
  }

  method LinesMissingFrom(source: string, other: string, maximumLines: nat) returns (missing: seq<string>)
    ensures missing == Capped(MissingLines(source, other), maximumLines)
  {
    var remaining := CountLines(other);
    var lines := Lines(source);
    ghost var goal, others := MissingLines(source, other), multiset(Lines(other));
    ghost var all: seq<string> := [];
    missing := [];
    assert lines[0..] == lines;
    for i := 0 to |lines|
      invariant CountsAre(remaining, others)
      invariant all + Excess(lines[i..], others) == goal
      invariant missing == Capped(all, maximumLines)
    {
      var line := lines[i];
      ExcessNext(lines, i, others);
      if line in remaining && remaining[line] > 0 {
        remaining := remaining[line := remaining[line] - 1];
        others := others - multiset{line};
      } else {
        all := all + [line];
        if |missing| < maximumLines {
          missing := missing + [line];
        }
      }
    }
    assert all + [] == all;
  }

  // --- What is missing ---

  /** The lines appear among the others, in order. */
  ghost predicate IsSubsequence(part: seq<string>, whole: seq<string>)
    decreases |whole|
  {
    if part == [] then true
    else if whole == [] then false
    else (part[0] == whole[0] && IsSubsequence(part[1..], whole[1..])) || IsSubsequence(part, whole[1..])
  }

  lemma {:induction false} ExcessIsSubsequence(lines: seq<string>, others: multiset<string>)
    ensures IsSubsequence(Excess(lines, others), lines)
    decreases |lines|
  {
    if lines != [] {
      if lines[0] in others {
        ExcessIsSubsequence(lines[1..], others - multiset{lines[0]});
      } else {
        ExcessIsSubsequence(lines[1..], others);
      }
    }
  }

  /** Counting repeats, the missing lines are the source's lines less the other's. */
  lemma {:induction false} ExcessIsDifference(lines: seq<string>, others: multiset<string>)
    ensures multiset(Excess(lines, others)) == multiset(lines) - others
    decreases |lines|
  {
    if lines != [] {
      assert lines == [lines[0]] + lines[1..];
      if lines[0] in others {
        ExcessIsDifference(lines[1..], others - multiset{lines[0]});
      } else {
        ExcessIsDifference(lines[1..], others);
      }
    }
  }

  /** Of equal lines the last ones are reported: a line is missing exactly when as many like it came before as the other text has. */
  lemma {:induction false} ExcessAtEnd(lines: seq<string>, last: string, others: multiset<string>)
    ensures Excess(lines + [last], others) ==
              Excess(lines, others) + (if multiset(lines)[last] >= others[last] then [last] else [])
    decreases |lines|
  {
    var longer := lines + [last];
    if lines == [] {
      assert longer[1..] == [];
    } else {
      assert longer[0] == lines[0] && longer[1..] == lines[1..] + [last];
      assert lines == [lines[0]] + lines[1..];
      if lines[0] in others {
        ExcessAtEnd(lines[1..], last, others - multiset{lines[0]});
      } else {
        ExcessAtEnd(lines[1..], last, others);
      }
    }
  }

  // --- Both sides ---

  function Prefixed(lines: seq<string>, mark: string): (marked: seq<string>)
    ensures |marked| == |lines| && forall i :: 0 <= i < |lines| ==> marked[i] == mark + lines[i]
  {
    seq(|lines|, i requires 0 <= i < |lines| => mark + lines[i])
  }

  method StaleNoticesLineDifferences(regenerated: string, committed: string, maximumLinesPerSide: nat)
      returns (differences: seq<string>)
    ensures differences == Prefixed(Capped(MissingLines(regenerated, committed), maximumLinesPerSide), "+ ")
                           + Prefixed(Capped(MissingLines(committed, regenerated), maximumLinesPerSide), "- ")
    ensures differences == [] <==> maximumLinesPerSide == 0 || multiset(Lines(regenerated)) == multiset(Lines(committed))
  {
    differences := [];
    var added := LinesMissingFrom(regenerated, committed, maximumLinesPerSide);
    for i := 0 to |added|
      invariant differences == Prefixed(added, "+ ")[..i]
    {
      differences := differences + ["+ " + added[i]];
    }
    ghost var plus := differences;
    var removed := LinesMissingFrom(committed, regenerated, maximumLinesPerSide);
    for i := 0 to |removed|
      invariant differences == plus + Prefixed(removed, "- ")[..i]
    {
      differences := differences + ["- " + removed[i]];
    }
    NothingMissing(regenerated, committed);
  }

  /** Neither text lacks a line of the other exactly when they hold the same lines equally often, in whatever order. */
  lemma NothingMissing(a: string, b: string)
    ensures MissingLines(a, b) == [] && MissingLines(b, a) == [] <==> multiset(Lines(a)) == multiset(Lines(b))
  {
    var linesOfA, linesOfB := multiset(Lines(a)), multiset(Lines(b));
    ExcessIsDifference(Lines(a), linesOfB);
    ExcessIsDifference(Lines(b), linesOfA);
    if MissingLines(a, b) == [] && MissingLines(b, a) == [] {
      forall line
        ensures linesOfA[line] == linesOfB[line]
      {
        assert (linesOfA - linesOfB)[line] == 0 && (linesOfB - linesOfA)[line] == 0;
      }
    }
    if linesOfA == linesOfB {
      assert linesOfA - linesOfB == multiset{} == linesOfB - linesOfA;
      assert |multiset(MissingLines(a, b))| == |MissingLines(a, b)|;
      assert |multiset(MissingLines(b, a))| == |MissingLines(b, a)|;
    }
  }
}
