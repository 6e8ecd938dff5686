/**
 * The rollout check of `main`: poll the Deployment's readiness up to six
 * times, pausing between attempts, and on the last failed attempt print the
 * pod diagnosis and fail.
 */
module Rollout {
  import opened Deployment
  import opened PodDiagnostics
  import opened Sequences

  /** The counter's starting value: the number of readiness checks allowed. */
  const MaxAttempts: nat := 6

  datatype Outcome = Success | Failure

  /** What one run of the loop does, in order. */
  datatype Event =
    | Check(attempt: nat)            // one readiness query, attempts numbered from 1
    | Wait(count: nat)               // "not up yet" notice and sleep; the counter's new value
    | Diagnose(notes: seq<Note>)     // the pod diagnosis printed before failing
    | Done(outcome: Outcome)

  predicate IsCheck(e: Event) { e.Check? }
  predicate IsWait(e: Event) { e.Wait? }
  predicate IsDiagnose(e: Event) { e.Diagnose? }

  function Count(t: seq<Event>, p: Event -> bool): nat {
    if t == [] then 0 else (if p(t[0]) then 1 else 0) + Count(t[1..], p)
  }

  /** The attempt made while the counter holds `count`. */
  function AttemptAt(count: nat): nat
    requires 1 <= count <= MaxAttempts
  {
    MaxAttempts + 1 - count
  }

  /**
   * The events of the loop from the moment the counter holds `count`;
   * `ready(a)` is the answer of the readiness check on attempt `a`.
   */
  function PollFrom(ready: nat -> bool, diagnosis: seq<Note>, count: nat): seq<Event>
    requires 1 <= count <= MaxAttempts
    decreases count
  {
    var attempt := AttemptAt(count);
    if ready(attempt) then [Check(attempt), Done(Success)]
    else if count == 1 then [Check(attempt), Diagnose(diagnosis), Done(Failure)]
    else [Check(attempt), Wait(count - 1)] + PollFrom(ready, diagnosis, count - 1)
  }

  /** The whole run, with the diagnosis the pods and the cluster give. */
  function PollTrace(ready: nat -> bool, pods: seq<Pod>, cluster: Cluster): seq<Event> {
    PollFrom(ready, PodStatus(pods, cluster), MaxAttempts)
  }

  lemma {:induction false} CountAppend(a: seq<Event>, b: seq<Event>, p: Event -> bool)
    ensures Count(a + b, p) == Count(a, p) + Count(b, p)
    decreases |a|
  {
    if a == [] {
      assert a + b == b;
    } else {
      assert (a + b)[1..] == a[1..] + b;
      CountAppend(a[1..], b, p);
    }
  }

  /** The counts of the two- and three-event endings of a run. */
  lemma CountEnding(t: seq<Event>, p: Event -> bool)
    requires 2 <= |t| <= 3
    ensures Count(t, p) == (if p(t[0]) then 1 else 0) + (if p(t[1]) then 1 else 0) +
                           (if |t| == 3 && p(t[2]) then 1 else 0)
  {
    assert t[1..][1..] == t[2..];
    if |t| == 3 {
      assert t[2..][1..] == [];
    } else {
      assert t[2..] == [];
    }
  }

  /** The run succeeds iff some remaining attempt finds the Deployment ready. */
  lemma {:induction false} PollOutcome(ready: nat -> bool, diagnosis: seq<Note>, count: nat)
    requires 1 <= count <= MaxAttempts
    ensures |PollFrom(ready, diagnosis, count)| >= 2
    ensures PollFrom(ready, diagnosis, count)[|PollFrom(ready, diagnosis, count)| - 1]
            == Done(if exists a :: AttemptAt(count) <= a <= MaxAttempts && ready(a) then Success else Failure)
    decreases count
  {
    if !ready(AttemptAt(count)) && count > 1 {
      PollOutcome(ready, diagnosis, count - 1);
      var rest := PollFrom(ready, diagnosis, count - 1);
      assert (exists a :: AttemptAt(count) <= a <= MaxAttempts && ready(a))
         <==> (exists a :: AttemptAt(count - 1) <= a <= MaxAttempts && ready(a));
    }
  }

  /**
   * Termination and its bounds: at most `count` checks, at most `count - 1`
   * waits and at most one diagnosis.
   */
  lemma {:induction false} PollBounds(ready: nat -> bool, diagnosis: seq<Note>, count: nat)
    requires 1 <= count <= MaxAttempts
    ensures Count(PollFrom(ready, diagnosis, count), IsCheck) <= count
    ensures Count(PollFrom(ready, diagnosis, count), IsWait) <= count - 1
    ensures Count(PollFrom(ready, diagnosis, count), IsDiagnose) <= 1
    decreases count
  {
    var t := PollFrom(ready, diagnosis, count);
    if !ready(AttemptAt(count)) && count > 1 {
      var rest := PollFrom(ready, diagnosis, count - 1);
      PollBounds(ready, diagnosis, count - 1);
      var head := [Check(AttemptAt(count)), Wait(count - 1)];
      assert t == head + rest;
      CountAppend(head, rest, IsCheck);
      CountAppend(head, rest, IsWait);
      CountAppend(head, rest, IsDiagnose);
    } else {
      CountEnding(t, IsCheck);
      CountEnding(t, IsWait);
      CountEnding(t, IsDiagnose);
    }
  }

  /** A run ends with its only Done event. */
  lemma {:induction false} PollEndsOnce(ready: nat -> bool, diagnosis: seq<Note>, count: nat)
    requires 1 <= count <= MaxAttempts
    ensures PollFrom(ready, diagnosis, count)[|PollFrom(ready, diagnosis, count)| - 1].Done?
    ensures forall i :: 0 <= i < |PollFrom(ready, diagnosis, count)| - 1 ==>
              !PollFrom(ready, diagnosis, count)[i].Done?
    decreases count
  {
    var t := PollFrom(ready, diagnosis, count);
    if !ready(AttemptAt(count)) && count > 1 {
      var rest := PollFrom(ready, diagnosis, count - 1);
      PollEndsOnce(ready, diagnosis, count - 1);
      assert t == [Check(AttemptAt(count)), Wait(count - 1)] + rest;
      forall i | 2 <= i < |t| ensures t[i] == rest[i - 2] { }
    }
  }

  /**
   * Every wait leaves the counter at 1 or more and strictly below its value
   * before the run, and successive waits leave strictly decreasing counters.
   */
  lemma {:induction false} PollShape(ready: nat -> bool, diagnosis: seq<Note>, count: nat)
    requires 1 <= count <= MaxAttempts
    ensures forall i :: 0 <= i < |PollFrom(ready, diagnosis, count)| &&
                        PollFrom(ready, diagnosis, count)[i].Wait? ==>
              1 <= PollFrom(ready, diagnosis, count)[i].count < count
    ensures forall i, j :: 0 <= i < j < |PollFrom(ready, diagnosis, count)| &&
                           PollFrom(ready, diagnosis, count)[i].Wait? &&
                           PollFrom(ready, diagnosis, count)[j].Wait? ==>
              PollFrom(ready, diagnosis, count)[j].count < PollFrom(ready, diagnosis, count)[i].count
    decreases count
  {
    var t := PollFrom(ready, diagnosis, count);
    if !ready(AttemptAt(count)) && count > 1 {
      var rest := PollFrom(ready, diagnosis, count - 1);
      PollShape(ready, diagnosis, count - 1);
      assert t == [Check(AttemptAt(count)), Wait(count - 1)] + rest;
      forall i | 0 <= i < |t| && t[i].Wait? ensures 1 <= t[i].count < count {
        if i >= 2 {
          assert t[i] == rest[i - 2];
        }
      }
      forall i, j | 0 <= i < j < |t| && t[i].Wait? && t[j].Wait?
        ensures t[j].count < t[i].count
      {
        assert t[j] == rest[j - 2];
        if i >= 2 {
          assert t[i] == rest[i - 2];
        }
      }
    }
  }

  /**
   * A run starts with the check of the current attempt, and every wait sits
   * between the check of the attempt before it and the check of the next
   * attempt: the loop checks, then waits, then checks again.
   */
  lemma {:induction false} PollWaitsBetweenChecks(ready: nat -> bool, diagnosis: seq<Note>, count: nat)
    requires 1 <= count <= MaxAttempts
    ensures PollFrom(ready, diagnosis, count)[0] == Check(AttemptAt(count))
    ensures forall i :: 0 <= i < |PollFrom(ready, diagnosis, count)| &&
                        PollFrom(ready, diagnosis, count)[i].Wait? ==>
              1 <= PollFrom(ready, diagnosis, count)[i].count < count &&
              0 < i < |PollFrom(ready, diagnosis, count)| - 1 &&
              PollFrom(ready, diagnosis, count)[i - 1]
                == Check(AttemptAt(PollFrom(ready, diagnosis, count)[i].count + 1)) &&
              PollFrom(ready, diagnosis, count)[i + 1]
                == Check(AttemptAt(PollFrom(ready, diagnosis, count)[i].count))
    decreases count
  {
    var t := PollFrom(ready, diagnosis, count);
    if !ready(AttemptAt(count)) && count > 1 {
      var rest := PollFrom(ready, diagnosis, count - 1);
      PollWaitsBetweenChecks(ready, diagnosis, count - 1);
      assert t == [Check(AttemptAt(count)), Wait(count - 1)] + rest;
      forall i | 0 <= i < |t| && t[i].Wait?
        ensures 1 <= t[i].count < count && 0 < i < |t| - 1 &&
                t[i - 1] == Check(AttemptAt(t[i].count + 1)) && t[i + 1] == Check(AttemptAt(t[i].count))
      {
        if i == 1 {
          assert t[2] == rest[0];
        } else {
          assert i != 2 by { assert t[2] == rest[0]; }
          assert t[i] == rest[i - 2] && t[i - 1] == rest[i - 3] && t[i + 1] == rest[i - 1];
        }
      }
    }
  }

  /**
   * If attempt `k` is the first to find the Deployment ready, the run stops
   * there with success: `k` checks, `k - 1` waits, no diagnosis, and the
   * check of attempt `k` is the last one.
   */
  lemma {:induction false} PollFromFirstReady(ready: nat -> bool, diagnosis: seq<Note>, count: nat, k: nat)
    requires 1 <= count <= MaxAttempts
    requires AttemptAt(count) <= k <= MaxAttempts && ready(k)
    requires forall a :: AttemptAt(count) <= a < k ==> !ready(a)
    ensures Count(PollFrom(ready, diagnosis, count), IsCheck) == k - AttemptAt(count) + 1
    ensures Count(PollFrom(ready, diagnosis, count), IsWait) == k - AttemptAt(count)
    ensures Count(PollFrom(ready, diagnosis, count), IsDiagnose) == 0
    ensures PollFrom(ready, diagnosis, count)[|PollFrom(ready, diagnosis, count)| - 2..]
            == [Check(k), Done(Success)]
    decreases count
  {
    var t := PollFrom(ready, diagnosis, count);
    if k != AttemptAt(count) {
      var rest := PollFrom(ready, diagnosis, count - 1);
      PollFromFirstReady(ready, diagnosis, count - 1, k);
      var head := [Check(AttemptAt(count)), Wait(count - 1)];
      assert t == head + rest;
      CountAppend(head, rest, IsCheck);
      CountAppend(head, rest, IsWait);
      CountAppend(head, rest, IsDiagnose);
      assert t[|t| - 2..] == rest[|rest| - 2..];
    } else {
      CountEnding(t, IsCheck);
      CountEnding(t, IsWait);
      CountEnding(t, IsDiagnose);
    }
  }

  lemma PollStopsAtFirstReady(ready: nat -> bool, pods: seq<Pod>, cluster: Cluster, k: nat)
    requires 1 <= k <= MaxAttempts && ready(k)
    requires forall a :: 1 <= a < k ==> !ready(a)
    ensures Count(PollTrace(ready, pods, cluster), IsCheck) == k
    ensures Count(PollTrace(ready, pods, cluster), IsWait) == k - 1
    ensures Count(PollTrace(ready, pods, cluster), IsDiagnose) == 0
    ensures PollTrace(ready, pods, cluster)[|PollTrace(ready, pods, cluster)| - 2..]
            == [Check(k), Done(Success)]
  {
    PollFromFirstReady(ready, PodStatus(pods, cluster), MaxAttempts, k);
  }

  /**
   * If no remaining attempt finds the Deployment ready, every remaining
   * attempt is made, each but the last followed by a wait, and the diagnosis
   * runs once, right after the final check, before the failure.
   */
  lemma {:induction false} PollFromNeverReady(ready: nat -> bool, diagnosis: seq<Note>, count: nat)
    requires 1 <= count <= MaxAttempts
    requires forall a :: AttemptAt(count) <= a <= MaxAttempts ==> !ready(a)
    ensures Count(PollFrom(ready, diagnosis, count), IsCheck) == count
    ensures Count(PollFrom(ready, diagnosis, count), IsWait) == count - 1
    ensures Count(PollFrom(ready, diagnosis, count), IsDiagnose) == 1
    ensures |PollFrom(ready, diagnosis, count)| == 2 * count + 1
    ensures PollFrom(ready, diagnosis, count)[|PollFrom(ready, diagnosis, count)| - 3..]
            == [Check(MaxAttempts), Diagnose(diagnosis), Done(Failure)]
    decreases count
  {
    var t := PollFrom(ready, diagnosis, count);
    if count > 1 {
      var rest := PollFrom(ready, diagnosis, count - 1);
      PollFromNeverReady(ready, diagnosis, count - 1);
      var head := [Check(AttemptAt(count)), Wait(count - 1)];
      assert t == head + rest;
      CountAppend(head, rest, IsCheck);
      CountAppend(head, rest, IsWait);
      CountAppend(head, rest, IsDiagnose);
      assert t[|t| - 3..] == rest[|rest| - 3..];
    } else {
      CountEnding(t, IsCheck);
      CountEnding(t, IsWait);
      CountEnding(t, IsDiagnose);
    }
  }

  /**
   * If no remaining attempt finds the Deployment ready, the run before its
   * diagnosis is the remaining checks in attempt order, each followed by a
   * wait that leaves the counter one lower, the last check excepted.
   */
  lemma {:induction false} PollNeverReadyOrder(ready: nat -> bool, diagnosis: seq<Note>, count: nat)
    requires 1 <= count <= MaxAttempts
    requires forall a :: AttemptAt(count) <= a <= MaxAttempts ==> !ready(a)
    ensures |PollFrom(ready, diagnosis, count)| == 2 * count + 1
    ensures forall i :: 0 <= i < 2 * count - 1 ==>
              PollFrom(ready, diagnosis, count)[i]
                == if i % 2 == 0 then Check(AttemptAt(count) + i / 2) else Wait(count - 1 - i / 2)
    decreases count
  {
    var t := PollFrom(ready, diagnosis, count);
    if count > 1 {
      var rest := PollFrom(ready, diagnosis, count - 1);
      PollNeverReadyOrder(ready, diagnosis, count - 1);
      assert t == [Check(AttemptAt(count)), Wait(count - 1)] + rest;
      forall i | 2 <= i < 2 * count - 1
        ensures t[i] == if i % 2 == 0 then Check(AttemptAt(count) + i / 2) else Wait(count - 1 - i / 2)
      {
        assert t[i] == rest[i - 2];
        assert (i - 2) % 2 == i % 2 && (i - 2) / 2 == i / 2 - 1;
      }
    }
  }

  lemma PollFailsWhenNeverReady(ready: nat -> bool, pods: seq<Pod>, cluster: Cluster)
    requires forall a :: 1 <= a <= MaxAttempts ==> !ready(a)
    ensures Count(PollTrace(ready, pods, cluster), IsCheck) == MaxAttempts
    ensures Count(PollTrace(ready, pods, cluster), IsWait) == MaxAttempts - 1
    ensures Count(PollTrace(ready, pods, cluster), IsDiagnose) == 1
    ensures |PollTrace(ready, pods, cluster)| == 2 * MaxAttempts + 1
    ensures forall i :: 0 <= i < 2 * MaxAttempts - 1 ==>
              PollTrace(ready, pods, cluster)[i]
                == if i % 2 == 0 then Check(1 + i / 2) else Wait(MaxAttempts - 1 - i / 2)
    ensures PollTrace(ready, pods, cluster)[|PollTrace(ready, pods, cluster)| - 3..]
            == [Check(MaxAttempts), Diagnose(PodStatus(pods, cluster)), Done(Failure)]
  {
    PollFromNeverReady(ready, PodStatus(pods, cluster), MaxAttempts);
    PollNeverReadyOrder(ready, PodStatus(pods, cluster), MaxAttempts);
  }

  /**
   * When every attempt gets the same answer, as it does for a Deployment
   * fetched once, the run either succeeds on the first check or fails after
   * all six checks and five waits.
   */
  lemma PollConstantReadiness(ready: nat -> bool, pods: seq<Pod>, cluster: Cluster, answer: bool)
    requires forall a :: ready(a) == answer
    ensures answer ==> PollTrace(ready, pods, cluster) == [Check(1), Done(Success)]
    ensures !answer ==> Count(PollTrace(ready, pods, cluster), IsCheck) == MaxAttempts
    ensures !answer ==> Count(PollTrace(ready, pods, cluster), IsWait) == MaxAttempts - 1
    ensures !answer ==> Count(PollTrace(ready, pods, cluster), IsDiagnose) == 1
    ensures !answer ==> PollTrace(ready, pods, cluster)[|PollTrace(ready, pods, cluster)| - 1] == Done(Failure)
  {
    if !answer {
      PollFailsWhenNeverReady(ready, pods, cluster);
      var t := PollTrace(ready, pods, cluster);
      assert t[|t| - 1] == t[|t| - 3..][2];
    }
  }

  /**
   * The countdown loop of `main`. The counter starts at six; a ready check
   * ends the loop with success by zeroing the counter, the check at counter 1
   * prints the diagnosis and fails, any other check waits and decrements.
   */
  method Poll(ready: nat -> bool, pods: seq<Pod>, cluster: Cluster) returns (outcome: Outcome, trace: seq<Event>)
    ensures trace == PollTrace(ready, pods, cluster)
    ensures |trace| > 0 && trace[|trace| - 1] == Done(outcome)
    ensures outcome == Success <==> exists a :: 1 <= a <= MaxAttempts && ready(a)
  {
    ghost var diagnosis := PodStatus(pods, cluster);
    ghost var full := PollFrom(ready, diagnosis, MaxAttempts);
    PollOutcome(ready, diagnosis, MaxAttempts);
    var count := MaxAttempts;
    trace := [];
    outcome := Success;
    while count > 0
      invariant 0 <= count <= MaxAttempts
      invariant count > 0 ==> trace + PollFrom(ready, diagnosis, count) == full
      invariant count == 0 ==> trace == full && outcome == Success
      invariant count == 0 ==> |trace| > 0 && trace[|trace| - 1] == Done(Success)
      decreases count
    {
      var attempt := MaxAttempts + 1 - count;
      if ready(attempt) {
        assert PollFrom(ready, diagnosis, count) == [Check(attempt), Done(Success)];
        trace := trace + [Check(attempt), Done(Success)];
        outcome := Success;
        count := 0;
      } else if count == 1 {
        assert PollFrom(ready, diagnosis, count) == [Check(attempt), Diagnose(diagnosis), Done(Failure)];
        var notes := PrintPodStatus(pods, cluster);
        trace := trace + [Check(attempt), Diagnose(notes), Done(Failure)];
        outcome := Failure;
        return;
      } else {
        var step := [Check(attempt), Wait(count - 1)];
        assert PollFrom(ready, diagnosis, count) == step + PollFrom(ready, diagnosis, count - 1);
        AppendAssoc(trace, step, PollFrom(ready, diagnosis, count - 1));
        trace := trace + step;
        count := count - 1;
      }
    }
  }

  /**
   * `main` after its setup: the Deployment's conditions are read once, so
   * every attempt sees the same readiness; the run succeeds on the first
   * check or fails after six checks, five waits and one diagnosis.
   */
  method Validate(conditions: seq<Condition>, pods: seq<Pod>, cluster: Cluster)
    returns (outcome: Outcome, trace: seq<Event>)
    ensures outcome == Success <==> PrintDeploymentStatus(conditions)
    ensures outcome == Success ==> trace == [Check(1), Done(Success)]
    ensures outcome == Failure ==> Count(trace, IsCheck) == MaxAttempts
    ensures outcome == Failure ==> Count(trace, IsWait) == MaxAttempts - 1
    ensures outcome == Failure ==> Count(trace, IsDiagnose) == 1
    ensures outcome == Failure ==>
              |trace| == 2 * MaxAttempts + 1 &&
              trace[|trace| - 3..] == [Check(MaxAttempts), Diagnose(PodStatus(pods, cluster)), Done(Failure)]
  {
    var available := PrintDeploymentStatus(conditions);
    var ready := (a: nat) => available;
    outcome, trace := Poll(ready, pods, cluster);
    PollConstantReadiness(ready, pods, cluster, available);
    assert ready(1) == available;
    if !available {
      PollFailsWhenNeverReady(ready, pods, cluster);
    }
  }
}
