/**
 * The log evidence scanner of `getPodlogs`: read a container's log line by
 * line, keep the lines that mention "error" but not "datadog" (both tested on
 * the lower-cased line), drop exact repeats, and stop after ten kept lines.
 */
module PodLogs {
  import opened Text

  /** The scanner stops once this many distinct lines have been kept. */
  const MaxEvidence: nat := 10

  /** The per-line filter, case-insensitive through ASCII lower-casing. */
  predicate Qualifies(line: string) {
    var lower := Lower(line);
    Contains(lower, "error") && !Contains(lower, "datadog")
  }

  /** The filter ignores case: upper-casing a line does not change whether it qualifies. */
  lemma QualifiesIgnoresCase(line: string)
    ensures Qualifies(Upper(line)) == Qualifies(line)
  {
    LowerUpper(line);
  }

  /** An upper-case "ERROR" line is kept; a line that names DataDog, in any case, is not. */
  lemma QualifiesExamples()
    ensures Qualifies("ERROR")
    ensures !Qualifies("DataDog Error")
  {
    assert Lower("ERROR") == "error";
    assert Lower("DataDog Error")[..7] == "datadog";
  }

  predicate NoDuplicates(s: seq<string>) {
    forall i, j :: 0 <= i < j < |s| ==> s[i] != s[j]
  }

  /** The qualifying lines of a log, in log order. */
  function Filter(lines: seq<string>): seq<string> {
    if lines == [] then []
    else
      var last := lines[|lines| - 1];
      Filter(lines[..|lines| - 1]) + (if Qualifies(last) then [last] else [])
  }

  /** Filtering keeps exactly the qualifying lines of the log. */
  lemma {:induction false} FilterKeepsQualifying(lines: seq<string>)
    ensures forall x :: x in Filter(lines) <==> x in lines && Qualifies(x)
    decreases |lines|
  {
    if lines != [] {
      var last := lines[|lines| - 1];
      assert lines == lines[..|lines| - 1] + [last];
      FilterKeepsQualifying(lines[..|lines| - 1]);
    }
  }

  /** Each distinct line once, at the place of its first occurrence. */
  function Dedup(s: seq<string>): seq<string> {
    if s == [] then []
    else
      var last := s[|s| - 1];
      var d := Dedup(s[..|s| - 1]);
      if last in d then d else d + [last]
  }

  /** Deduplication keeps no line twice and loses no distinct line. */
  lemma {:induction false} DedupDistinct(s: seq<string>)
    ensures NoDuplicates(Dedup(s))
    ensures forall x :: x in Dedup(s) <==> x in s
    decreases |s|
  {
    if s != [] {
      var last := s[|s| - 1];
      assert s == s[..|s| - 1] + [last];
      DedupDistinct(s[..|s| - 1]);
    }
  }

  /** What the scan emits for a whole log: the first MaxEvidence distinct qualifying lines. */
  function Evidence(lines: seq<string>): seq<string> {
    var d := Dedup(Filter(lines));
    if |d| <= MaxEvidence then d else d[..MaxEvidence]
  }

  /**
   * The evidence holds at most MaxEvidence lines, none twice, each from the
   * log and qualifying; below the cap it holds every qualifying line.
   */
  lemma EvidenceProperties(lines: seq<string>)
    ensures |Evidence(lines)| <= MaxEvidence
    ensures NoDuplicates(Evidence(lines))
    ensures forall x :: x in Evidence(lines) ==> x in lines && Qualifies(x)
    ensures |Evidence(lines)| < MaxEvidence ==>
              forall x :: x in lines && Qualifies(x) ==> x in Evidence(lines)
  {
    FilterKeepsQualifying(lines);
    DedupDistinct(Filter(lines));
  }

  lemma FilterSnoc(lines: seq<string>, i: nat)
    requires i < |lines|
    ensures Filter(lines[..i + 1]) == Filter(lines[..i]) + (if Qualifies(lines[i]) then [lines[i]] else [])
  {
    assert lines[..i + 1][..i] == lines[..i];
  }

  lemma DedupSnoc(s: seq<string>, x: string)
    ensures Dedup(s + [x]) == if x in Dedup(s) then Dedup(s) else Dedup(s) + [x]
  {
    assert (s + [x])[..|s|] == s;
  }

  /** Filtering a prefix of the log gives a prefix of the filtered log. */
  lemma {:induction false} FilterPrefix(lines: seq<string>, n: nat)
    requires n <= |lines|
    ensures Filter(lines[..n]) <= Filter(lines)
    decreases |lines| - n
  {
    if n < |lines| {
      FilterPrefix(lines, n + 1);
      FilterSnoc(lines, n);
      assert lines[..|lines|] == lines;
    } else {
      assert lines[..n] == lines;
    }
  }

  /**
   * Deduplicating a prefix gives a prefix: together with the membership
   * property of Dedup this says the output is in first-occurrence order.
   */
  lemma {:induction false} DedupPrefix(a: seq<string>, b: seq<string>)
    requires a <= b
    ensures Dedup(a) <= Dedup(b)
    decreases |b|
  {
    if a != b {
      var init, last := b[..|b| - 1], b[|b| - 1];
      assert |a| < |b|;
      assert a == b[..|a|];
      assert a <= init by {
        assert init[..|a|] == b[..|a|];
      }
      assert b == init + [last];
      DedupPrefix(a, init);
      DedupSnoc(init, last);
    }
  }

  /** The evidence kept after reading a prefix of the log is a prefix of the whole-log result. */
  lemma EvidencePrefix(lines: seq<string>, n: nat)
    requires n <= |lines|
    ensures Dedup(Filter(lines[..n])) <= Dedup(Filter(lines))
  {
    FilterPrefix(lines, n);
    DedupPrefix(Filter(lines[..n]), Filter(lines));
  }

  /** Reading one more line adds it to the evidence iff it qualifies and is new. */
  lemma ScanStep(lines: seq<string>, i: nat)
    requires i < |lines|
    ensures var d := Dedup(Filter(lines[..i]));
            Dedup(Filter(lines[..i + 1]))
            == if Qualifies(lines[i]) && lines[i] !in d then d + [lines[i]] else d
  {
    FilterSnoc(lines, i);
    if Qualifies(lines[i]) {
      DedupSnoc(Filter(lines[..i]), lines[i]);
    } else {
      assert Filter(lines[..i + 1]) == Filter(lines[..i]) + [];
      assert Filter(lines[..i]) + [] == Filter(lines[..i]);
    }
  }

  /** Once the cap is reached after reading a prefix, that prefix decides the evidence. */
  lemma EvidenceAtCap(lines: seq<string>, n: nat)
    requires n <= |lines|
    requires |Dedup(Filter(lines[..n]))| == MaxEvidence
    ensures Evidence(lines) == Dedup(Filter(lines[..n]))
  {
    EvidencePrefix(lines, n);
  }

  /** The evidence kept when the scan stops is what the whole log gives. */
  lemma ScanConclusion(lines: seq<string>, consumed: nat, evidence: seq<string>)
    requires consumed <= |lines|
    requires evidence == Dedup(Filter(lines[..consumed]))
    requires |evidence| <= MaxEvidence
    requires |evidence| < MaxEvidence ==> consumed == |lines|
    ensures evidence == Evidence(lines)
  {
    if |evidence| == MaxEvidence {
      EvidenceAtCap(lines, consumed);
    } else {
      assert lines[..consumed] == lines;
    }
  }

  /**
   * The scan loop of `getPodlogs`. `consumed` is the number of lines read
   * before the loop stopped; the `seen` map plays the part of `seenLines`.
   */
  method ScanLogs(lines: seq<string>) returns (evidence: seq<string>, consumed: nat)
    ensures consumed <= |lines|
    ensures evidence == Evidence(lines)
    ensures evidence == Dedup(Filter(lines[..consumed]))
    ensures |evidence| < MaxEvidence ==> consumed == |lines|
    ensures |evidence| == MaxEvidence ==> 0 < consumed
    ensures |evidence| == MaxEvidence ==> |Dedup(Filter(lines[..consumed - 1]))| < MaxEvidence
  {
    var lineCount := 0;
    var seen: map<string, bool> := map[];
    evidence := [];
    ghost var prior: seq<string> := [];
    var i := 0;
    while i < |lines|
      invariant 0 <= i <= |lines|
      invariant evidence == Dedup(Filter(lines[..i]))
      invariant lineCount == |evidence| < MaxEvidence
      invariant 0 < i ==> prior == Dedup(Filter(lines[..i - 1])) && |prior| < MaxEvidence
      invariant forall s :: s in seen ==> seen[s]
      invariant forall s :: s in seen <==> s in evidence
    {
      var line := lines[i];
      ScanStep(lines, i);
      prior := evidence;
      i := i + 1;
      if Qualifies(line) {
        if !(line in seen && seen[line]) {
          evidence := evidence + [line];
          seen := seen[line := true];
          lineCount := lineCount + 1;
          if lineCount >= MaxEvidence {
            break;
          }
        }
      }
    }
    consumed := i;
    ScanConclusion(lines, consumed, evidence);
  }

  lemma {:induction false} NoDuplicatesCount(s: seq<string>, x: string)
    requires NoDuplicates(s)
    ensures multiset(s)[x] <= 1
    ensures x in s ==> multiset(s)[x] == 1
  {
    if s != [] {
      assert s == [s[0]] + s[1..];
      NoDuplicatesCount(s[1..], x);
      if x == s[0] {
        assert x !in s[1..] by {
          forall k | 0 <= k < |s[1..]| ensures s[1..][k] != x {
            assert s[k + 1] != s[0];
          }
        }
      }
    }
  }

  /**
   * However often a line is repeated in the log, it is emitted at most once,
   * and exactly once when it qualifies and the cap was not reached.
   */
  lemma RepeatedLineOnce(lines: seq<string>, x: string)
    ensures multiset(Evidence(lines))[x] <= 1
    ensures x in lines && Qualifies(x) && |Evidence(lines)| < MaxEvidence ==>
              multiset(Evidence(lines))[x] == 1
  {
    EvidenceProperties(lines);
    NoDuplicatesCount(Evidence(lines), x);
  }

  /**
   * When the first ten lines of a log are distinct and all qualify, the
   * evidence is exactly those ten lines, in log order.
   */
  lemma {:induction false} FirstTenDistinct(lines: seq<string>)
    requires |lines| >= MaxEvidence
    requires NoDuplicates(lines[..MaxEvidence])
    requires forall i :: 0 <= i < MaxEvidence ==> Qualifies(lines[i])
    ensures Evidence(lines) == lines[..MaxEvidence]
  {
    AllDistinctQualifying(lines, MaxEvidence);
    EvidencePrefix(lines, MaxEvidence);
  }

  lemma {:induction false} AllDistinctQualifying(lines: seq<string>, n: nat)
    requires n <= |lines|
    requires NoDuplicates(lines[..n])
    requires forall i :: 0 <= i < n ==> Qualifies(lines[i])
    ensures Dedup(Filter(lines[..n])) == lines[..n]
  {
    if n > 0 {
      var last := lines[n - 1];
      assert lines[..n] == lines[..n - 1] + [last];
      assert last !in lines[..n - 1] by {
        forall k | 0 <= k < n - 1 ensures lines[k] != last {
          assert lines[..n][k] != lines[..n][n - 1];
        }
      }
      assert NoDuplicates(lines[..n - 1]) by {
        forall a, b | 0 <= a < b < n - 1 ensures lines[a] != lines[b] {
          assert lines[..n][a] != lines[..n][b];
        }
      }
      AllDistinctQualifying(lines, n - 1);
      ScanStep(lines, n - 1);
    }
  }
}
