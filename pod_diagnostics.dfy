/**
 * The diagnosis of `printPodStatus`: for every container of every pod,
 * decide from its state whether it is running, failed to pull its image,
 * failed to build its configuration, or needs its log scanned, and emit the
 * matching explanation.
 */
module PodDiagnostics {
  import opened Wrappers
  import opened Text
  import opened PodLogs
  import opened Sequences

  datatype RunningState = RunningState(startedAt: string)
  datatype WaitingState = WaitingState(reason: string, message: string)
  datatype TerminatedState = TerminatedState(exitCode: int, reason: string, message: string)

  /** A container's state: three optional parts, any of which may be absent. */
  datatype ContainerState = ContainerState(
    running: Option<RunningState>,
    waiting: Option<WaitingState>,
    terminated: Option<TerminatedState>)

  datatype ContainerStatus = ContainerStatus(name: string, ready: bool, state: ContainerState)

  /** A pod: its name, the names of its image-pull secrets and its container statuses. */
  datatype Pod = Pod(name: string, imagePullSecrets: seq<string>, containerStatuses: seq<ContainerStatus>)

  /**
   * What the cluster answers during the diagnosis: whether the lookup of a
   * secret (in the namespace under test) succeeds, and the log lines of a
   * container, given the pod name and the container name. A log stream that
   * could not be opened reads as no lines.
   */
  datatype Cluster = Cluster(secretFound: string -> bool, logs: (string, string) -> seq<string>)

  datatype Classification = HealthyRunning | ImagePullFailure | ConfigError | NeedsLogScan

  const ImagePullBackOff := "ImagePullBackOff"
  const ErrImagePull := "ErrImagePull"
  const CreateContainerConfigError := "CreateContainerConfigError"

  /** One printed note of the diagnosis. */
  datatype Note =
    | PodHeader(pod: string)
    | ContainerRunning(container: string)
      /** the pull-secret lookup failed: "please add them" */
    | PullSecretMissing(container: string, secret: string)
      /** the pull secret exists: "expired or wrong values in the secret" */
    | PullSecretPresent(container: string, secret: string)
      /** the pod lists no pull secret: indexing the empty list aborts the program */
    | NoPullSecret(container: string)
    | SecretKeyRefHint(container: string)
    | ConfigMapKeyRefHint(container: string)
    | LogEvidence(container: string, lines: seq<string>)

  /**
   * The nested decision of `printPodStatus`, stated as four first-match
   * rules: running and ready; waiting on an image pull; waiting on a
   * configuration error; anything else.
   */
  function Classify(c: ContainerStatus): (r: Classification)
    ensures r == HealthyRunning <==> c.state.running.Some? && c.ready
    ensures r == ImagePullFailure <==>
              !(c.state.running.Some? && c.ready) && c.state.waiting.Some? &&
              c.state.waiting.value.reason in {ImagePullBackOff, ErrImagePull}
    ensures r == ConfigError <==>
              !(c.state.running.Some? && c.ready) && c.state.waiting.Some? &&
              c.state.waiting.value.reason == CreateContainerConfigError
    ensures r == NeedsLogScan <==>
              !(c.state.running.Some? && c.ready) &&
              (c.state.waiting.None? ||
               c.state.waiting.value.reason !in {ImagePullBackOff, ErrImagePull, CreateContainerConfigError})
  {
    if c.state.running.None? || !c.ready then
      if c.state.waiting.Some? then
        var reason := c.state.waiting.value.reason;
        if reason == ImagePullBackOff || reason == ErrImagePull then ImagePullFailure
        else if reason == CreateContainerConfigError then ConfigError
        else NeedsLogScan
      else NeedsLogScan
    else HealthyRunning
  }

  /** The explanation printed for one container of `pod`. */
  function Explain(pod: Pod, c: ContainerStatus, cluster: Cluster): Note {
    match Classify(c)
    case HealthyRunning => ContainerRunning(c.name)
    case ImagePullFailure =>
      if |pod.imagePullSecrets| == 0 then NoPullSecret(c.name)
      else
        var secret := pod.imagePullSecrets[0];
        if cluster.secretFound(secret) then PullSecretPresent(c.name, secret)
        else PullSecretMissing(c.name, secret)
    case ConfigError =>
      if Contains(c.state.waiting.value.message, "secret") then SecretKeyRefHint(c.name)
      else ConfigMapKeyRefHint(c.name)
    case NeedsLogScan => LogEvidence(c.name, Evidence(cluster.logs(pod.name, c.name)))
  }

  /** The notes for a pod's containers, in order, ending early at a NoPullSecret note. */
  function ContainerNotes(pod: Pod, cs: seq<ContainerStatus>, cluster: Cluster): seq<Note>
    decreases |cs|
  {
    if cs == [] then []
    else
      var n := Explain(pod, cs[0], cluster);
      if n.NoPullSecret? then [n] else [n] + ContainerNotes(pod, cs[1..], cluster)
  }

  function PodNotes(pod: Pod, cluster: Cluster): seq<Note> {
    [PodHeader(pod.name)] + ContainerNotes(pod, pod.containerStatuses, cluster)
  }

  predicate Aborted(notes: seq<Note>) {
    |notes| > 0 && notes[|notes| - 1].NoPullSecret?
  }

  /** The whole report: each pod's notes in turn, up to the first abort. */
  function PodStatus(pods: seq<Pod>, cluster: Cluster): seq<Note>
    decreases |pods|
  {
    if pods == [] then []
    else
      var notes := PodNotes(pods[0], cluster);
      if Aborted(notes) then notes else notes + PodStatus(pods[1..], cluster)
  }

  /**
   * The per-container branches of `printPodStatus`, with the log scan done
   * by the scanning loop.
   */
  method ExplainContainer(pod: Pod, c: ContainerStatus, cluster: Cluster) returns (n: Note)
    ensures n == Explain(pod, c, cluster)
  {
    if c.state.running.None? || !c.ready {
      if c.state.waiting.Some? {
        var reason := c.state.waiting.value.reason;
        if reason == ImagePullBackOff || reason == ErrImagePull {
          if |pod.imagePullSecrets| == 0 {
            n := NoPullSecret(c.name);
          } else {
            var secret := pod.imagePullSecrets[0];
            if cluster.secretFound(secret) {
              n := PullSecretPresent(c.name, secret);
            } else {
              n := PullSecretMissing(c.name, secret);
            }
          }
        } else if reason == CreateContainerConfigError {
          if Contains(c.state.waiting.value.message, "secret") {
            n := SecretKeyRefHint(c.name);
          } else {
            n := ConfigMapKeyRefHint(c.name);
          }
        } else {
          var evidence, _ := ScanLogs(cluster.logs(pod.name, c.name));
          n := LogEvidence(c.name, evidence);
        }
      } else {
        var evidence, _ := ScanLogs(cluster.logs(pod.name, c.name));
        n := LogEvidence(c.name, evidence);
      }
    } else {
      n := ContainerRunning(c.name);
    }
  }

  /** The inner loop of `printPodStatus`: the header and the notes of one pod. */
  method PrintPod(pod: Pod, cluster: Cluster) returns (podNotes: seq<Note>)
    ensures podNotes == PodNotes(pod, cluster)
  {
    var cs := pod.containerStatuses;
    podNotes := [PodHeader(pod.name)];
    var j := 0;
    while j < |cs|
      invariant 0 <= j <= |cs|
      invariant podNotes + ContainerNotes(pod, cs[j..], cluster) == PodNotes(pod, cluster)
    {
      var n := ExplainContainer(pod, cs[j], cluster);
      assert cs[j..][1..] == cs[j + 1..];
      podNotes := podNotes + [n];
      if n.NoPullSecret? {
        return;
      }
      j := j + 1;
    }
  }

  lemma PodStatusStep(pods: seq<Pod>, i: nat, cluster: Cluster)
    requires i < |pods|
    ensures PodStatus(pods[i..], cluster) ==
              if Aborted(PodNotes(pods[i], cluster)) then PodNotes(pods[i], cluster)
              else PodNotes(pods[i], cluster) + PodStatus(pods[i + 1..], cluster)
  {
    assert pods[i..][1..] == pods[i + 1..];
  }

  /** The outer loop of `printPodStatus`, over the pods; an abort ends the report. */
  method PrintPodStatus(pods: seq<Pod>, cluster: Cluster) returns (notes: seq<Note>)
    ensures notes == PodStatus(pods, cluster)
  {
    notes := [];
    var i := 0;
    assert pods[0..] == pods;
    while i < |pods|
      invariant 0 <= i <= |pods|
      invariant notes + PodStatus(pods[i..], cluster) == PodStatus(pods, cluster)
    {
      var podNotes := PrintPod(pods[i], cluster);
      PodStatusStep(pods, i, cluster);
      if Aborted(podNotes) {
        notes := notes + podNotes;
        return;
      }
      AppendAssoc(notes, podNotes, PodStatus(pods[i + 1..], cluster));
      notes := notes + podNotes;
      i := i + 1;
    }
    assert pods[i..] == [];
  }

  /**
   * The ImagePull explanation depends on the lookup of the pod's first pull
   * secret: a failed lookup asks for the secret to be added, a successful one
   * points at its values; a pod with no pull secret aborts the diagnosis.
   */
  lemma ImagePullExplanation(pod: Pod, c: ContainerStatus, cluster: Cluster)
    requires !(c.state.running.Some? && c.ready) && c.state.waiting.Some?
    requires c.state.waiting.value.reason == ImagePullBackOff || c.state.waiting.value.reason == ErrImagePull
    ensures |pod.imagePullSecrets| == 0 ==> Explain(pod, c, cluster) == NoPullSecret(c.name)
    ensures |pod.imagePullSecrets| > 0 && !cluster.secretFound(pod.imagePullSecrets[0]) ==>
              Explain(pod, c, cluster) == PullSecretMissing(c.name, pod.imagePullSecrets[0])
    ensures |pod.imagePullSecrets| > 0 && cluster.secretFound(pod.imagePullSecrets[0]) ==>
              Explain(pod, c, cluster) == PullSecretPresent(c.name, pod.imagePullSecrets[0])
  {
  }

  /**
   * A configuration error gets the secretKeyRef hint exactly when its
   * message contains "secret" (case-sensitive), the configMapKeyRef hint
   * otherwise.
   */
  lemma ConfigErrorExplanation(pod: Pod, c: ContainerStatus, cluster: Cluster)
    requires !(c.state.running.Some? && c.ready) && c.state.waiting.Some?
    requires c.state.waiting.value.reason == CreateContainerConfigError
    ensures Explain(pod, c, cluster) ==
              if exists i: nat :: OccursAt(c.state.waiting.value.message, "secret", i)
              then SecretKeyRefHint(c.name) else ConfigMapKeyRefHint(c.name)
  {
    ContainsOccurs(c.state.waiting.value.message, "secret");
  }

  /**
   * Which answers of the cluster an explanation uses: none for a running or
   * misconfigured container, only the lookup of the first pull secret for an
   * image-pull failure, only the container's own log otherwise.
   */
  lemma ExplainConsults(pod: Pod, c: ContainerStatus, cluster1: Cluster, cluster2: Cluster)
    requires Classify(c) == ImagePullFailure && |pod.imagePullSecrets| > 0 ==>
               cluster1.secretFound(pod.imagePullSecrets[0]) == cluster2.secretFound(pod.imagePullSecrets[0])
    requires Classify(c) == NeedsLogScan ==>
               cluster1.logs(pod.name, c.name) == cluster2.logs(pod.name, c.name)
    ensures Explain(pod, c, cluster1) == Explain(pod, c, cluster2)
  {
  }

  /**
   * One note per container, in container order, until the first container
   * whose explanation aborts; nothing follows an abort.
   */
  lemma {:induction false} ContainerNotesShape(pod: Pod, cs: seq<ContainerStatus>, cluster: Cluster)
    ensures var r := ContainerNotes(pod, cs, cluster);
            |r| <= |cs| &&
            (forall j :: 0 <= j < |r| ==> r[j] == Explain(pod, cs[j], cluster)) &&
            (forall j :: 0 <= j < |r| - 1 ==> !r[j].NoPullSecret?) &&
            (|r| < |cs| ==> Aborted(r))
    decreases |cs|
  {
    if cs != [] {
      ContainerNotesShape(pod, cs[1..], cluster);
    }
  }

  /** In the whole report nothing follows an abort. */
  lemma {:induction false} AbortEndsReport(pods: seq<Pod>, cluster: Cluster)
    ensures forall j :: 0 <= j < |PodStatus(pods, cluster)| - 1 ==> !PodStatus(pods, cluster)[j].NoPullSecret?
    decreases |pods|
  {
    if pods != [] {
      ContainerNotesShape(pods[0], pods[0].containerStatuses, cluster);
      AbortEndsReport(pods[1..], cluster);
      var notes: seq<Note> := PodNotes(pods[0], cluster);
      var rest: seq<Note> := PodStatus(pods[1..], cluster);
      if !Aborted(notes) {
        forall j | 0 <= j < |notes + rest| - 1
          ensures !(notes + rest)[j].NoPullSecret?
        {
          if j >= |notes| {
            assert (notes + rest)[j] == rest[j - |notes|];
          } else {
            assert (notes + rest)[j] == notes[j];
            if 0 < j < |notes| - 1 {
              var r := ContainerNotes(pods[0], pods[0].containerStatuses, cluster);
              assert notes[j] == r[j - 1];
            }
          }
        }
      }
    }
  }

  /**
   * When no container aborts the diagnosis, the report holds a header for
   * every pod and the explanation of every container.
   */
  lemma {:induction false} ReportCoversAll(pods: seq<Pod>, cluster: Cluster)
    requires forall i, j :: 0 <= i < |pods| && 0 <= j < |pods[i].containerStatuses| ==>
               !Explain(pods[i], pods[i].containerStatuses[j], cluster).NoPullSecret?
    ensures forall i :: 0 <= i < |pods| ==> PodHeader(pods[i].name) in PodStatus(pods, cluster)
    ensures forall i, j :: 0 <= i < |pods| && 0 <= j < |pods[i].containerStatuses| ==>
              Explain(pods[i], pods[i].containerStatuses[j], cluster) in PodStatus(pods, cluster)
    decreases |pods|
  {
    if pods != [] {
      var pod := pods[0];
      var cs := pod.containerStatuses;
      ContainerNotesShape(pod, cs, cluster);
      var notes := PodNotes(pod, cluster);
      var r := ContainerNotes(pod, cs, cluster);
      assert |r| == |cs|;
      assert !Aborted(notes) by {
        if |r| > 0 {
          assert notes[|notes| - 1] == Explain(pods[0], pods[0].containerStatuses[|r| - 1], cluster);
        }
      }
      assert forall j :: 0 <= j < |cs| ==> notes[j + 1] == Explain(pod, cs[j], cluster);
      ReportCoversAll(pods[1..], cluster);
      assert PodStatus(pods, cluster) == notes + PodStatus(pods[1..], cluster);
      forall i | 0 < i < |pods| ensures PodHeader(pods[i].name) in PodStatus(pods, cluster) {
        assert pods[i] == pods[1..][i - 1];
      }
      forall i, j | 0 <= i < |pods| && 0 <= j < |pods[i].containerStatuses|
        ensures Explain(pods[i], pods[i].containerStatuses[j], cluster) in PodStatus(pods, cluster)
      {
        if i == 0 {
          assert notes[j + 1] == Explain(pod, cs[j], cluster);
        } else {
          assert pods[i] == pods[1..][i - 1];
        }
      }
    }
  }
}
