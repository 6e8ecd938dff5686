# PodValidator, modelled in Dafny

PodValidator is a post-deploy health check for one Kubernetes Deployment. It
polls the Deployment's readiness up to six times. When the Deployment never
becomes ready, it explains the failure container by container. A container
that is running and ready is reported as such. An image-pull failure is
explained from the lookup of the pod's first pull secret. A
`CreateContainerConfigError` gets a hint about `secretKeyRef` or
`configMapKeyRef`. Any other container has its log scanned for up to ten
distinct lines that mention "error" and not "datadog".

This project models that decision logic of `PodValidator/main.go` and proves
what it promises:

- `deployment.dfy` (module `Deployment`): `printDeploymentStatus`, a search for
  the first condition of type "Available" with status "True".
- `rollout.dfy` (module `Rollout`): the countdown loop of `main`, as the method
  `Poll` proved against the trace function `PollFrom`, and `Validate`, which
  runs it on a Deployment that is fetched once.
- `pod_diagnostics.dfy` (module `PodDiagnostics`): the classification and
  explanation of each container (`Classify`, `Explain`), and the nested loops of
  `printPodStatus` as the methods `ExplainContainer`, `PrintPod` and
  `PrintPodStatus`, proved against `PodStatus`.
- `pod_logs.dfy` (module `PodLogs`): the line-scanning loop of `getPodlogs`, as
  the method `ScanLogs` with a `seen` map. It is proved against `Evidence`: the
  first ten of the deduplicated qualifying lines.
- `text.dfy` (module `Text`): ASCII lower-casing and substring search.
  `wrappers.dfy` (module `Wrappers`): `Option`. `sequences.dfy` (module
  `Sequences`): associativity of concatenation, used by the loops that build
  the report and the trace.

The cluster is represented by plain inputs:

- Readiness is `ready: nat -> bool`, the answer on attempt 1 to 6.
- Secret lookups are `Cluster.secretFound`: does the lookup of this name succeed.
- Container logs are `Cluster.logs(pod, container)`: a finite sequence of lines.
  A stream that could not be opened reads as no lines.
- Printing becomes data. The loop records a trace of `Event`s: checks, waits
  (the "not up yet" notice plus the sleep), the diagnosis and the outcome.
  The diagnosis is a sequence of tagged `Note`s instead of formatted text.
- `log.Fatalf` becomes the outcome `Failure`.

The source does not guard `pod.Spec.ImagePullSecrets[0]` (main.go:146). A pod
with no pull secret makes the Go program panic at that point. The model
follows the code, not the intent that such a pod is flagged and the report
goes on. An image-pull failure in such a pod yields the note
`NoPullSecret`, and nothing is reported after it (`AbortEndsReport`). The run
still ends in failure.

## Model

| member | source | states |
|---|---|---|
| Text.Lower | PodValidator/main.go:122 | `strings.ToLower` on ASCII: keeps the length; what it does to each character is stated by `LowerFolds` and `LowerUpper` |
| Text.LowerFolds | PodValidator/main.go:122 | each letter A-Z becomes its own lower-case letter (code + 32), no upper-case ASCII letter remains, every other character stays in place, and lower-casing again changes nothing |
| Text.LowerUpper | PodValidator/main.go:122 | a string and its upper-cased form lower-case to the same string: lower-casing forgets case, so the test that follows is case-insensitive |
| Text.Contains | PodValidator/main.go:122 | `strings.Contains`, case-sensitive (also used on line 156); its contract is `ContainsOccurs` |
| Text.ContainsOccurs | PodValidator/main.go:156 | the substring test is true iff the substring occurs at some position of the string |
| Deployment.ScanConditions | PodValidator/main.go:86-93 | the loop returns at an Available/True condition, and no condition before it is Available/True; it runs off the end only when no condition is |
| Deployment.PrintDeploymentStatus | PodValidator/main.go:86-93 | the Deployment is reported ready iff some condition has type "Available" and status "True" |
| Deployment.ScanStopsAtFirstMatch | PodValidator/main.go:87-90 | the scan returns at the first match: conditions after it are never examined |
| PodLogs.Qualifies | PodValidator/main.go:122 | the per-line test: the lower-cased line contains "error" and not "datadog"; its properties are `QualifiesIgnoresCase` and `QualifiesExamples` |
| PodLogs.QualifiesIgnoresCase | PodValidator/main.go:122 | upper-casing a line never changes whether it qualifies |
| PodLogs.QualifiesExamples | PodValidator/main.go:122 | "ERROR" qualifies, and "DataDog Error" does not, because it mentions DataDog in another case |
| PodLogs.FilterKeepsQualifying | PodValidator/main.go:122 | a line is kept iff it is in the log and, lower-cased, contains "error" and not "datadog" |
| PodLogs.DedupDistinct | PodValidator/main.go:123-126 | the `seenLines` test keeps no line twice and loses no distinct line |
| PodLogs.DedupPrefix | PodValidator/main.go:123-126 | deduplicating a prefix of the log gives a prefix of the result, so lines come out in first-occurrence order |
| PodLogs.EvidenceProperties | PodValidator/main.go:110-133 | at most ten lines, no duplicates, every one from the log and qualifying; below the cap every qualifying line appears |
| PodLogs.ScanLogs | PodValidator/main.go:110-133 | the scan loop emits exactly `Evidence` of the log, which is the dedup of the qualifying lines it read; it reads the whole log unless it stopped at the read that emitted the tenth line |
| PodLogs.RepeatedLineOnce | PodValidator/main.go:123-127 | a line repeated in the log is emitted at most once, and exactly once when it qualifies and the cap was not reached |
| PodLogs.FirstTenDistinct | PodValidator/main.go:127-130 | when the first ten lines are distinct and qualify, the evidence is exactly those ten, in log order |
| PodDiagnostics.Classify | PodValidator/main.go:141-170 | four first-match rules: running and ready; otherwise waiting on ImagePullBackOff/ErrImagePull; otherwise waiting on CreateContainerConfigError; otherwise (no waiting state, other reason, terminated, running but not ready) log scan |
| PodDiagnostics.Explain | PodValidator/main.go:141-170 | the note for one container, chosen by `Classify`; its promises are stated by `ImagePullExplanation`, `ConfigErrorExplanation` and `ExplainConsults`, and `ExplainContainer` is proved to compute it |
| PodDiagnostics.ImagePullExplanation | PodValidator/main.go:143-152 | an image-pull failure uses the first pull secret: a failed lookup says to add it, a successful one says its values may be wrong; no pull secret aborts |
| PodDiagnostics.ConfigErrorExplanation | PodValidator/main.go:153-162 | a configuration error gets the secretKeyRef hint iff its message contains "secret" (case-sensitive), the configMapKeyRef hint otherwise |
| PodDiagnostics.ExplainConsults | PodValidator/main.go:141-170 | a running or misconfigured container causes no lookup and no log read; an image-pull failure reads only the first secret; a log scan reads only that container's log |
| PodDiagnostics.ExplainContainer | PodValidator/main.go:141-171 | the branches for one container produce exactly the explanation `Explain` gives |
| PodDiagnostics.PrintPod | PodValidator/main.go:139-172 | the inner loop prints the pod header and then the notes of its containers, ending early at an abort |
| PodDiagnostics.PrintPodStatus | PodValidator/main.go:138-173 | the outer loop prints exactly `PodStatus`: each pod's notes in turn, up to the first abort |
| PodDiagnostics.ContainerNotesShape | PodValidator/main.go:140-172 | one note per container, in order, each the container's explanation, until the first abort; nothing follows it |
| PodDiagnostics.AbortEndsReport | PodValidator/main.go:146 | no note of the whole report follows an abort |
| PodDiagnostics.ReportCoversAll | PodValidator/main.go:138-173 | without an abort, the report holds every pod's header and every container's explanation |
| Rollout.PollFrom | PodValidator/main.go:67-83 | the events of the countdown loop from a given counter value; its properties are `PollOutcome`, `PollBounds`, `PollEndsOnce`, `PollShape`, `PollWaitsBetweenChecks`, `PollFromFirstReady`, `PollFromNeverReady` and `PollNeverReadyOrder`, and `Poll` is proved to produce it |
| Rollout.PollOutcome | PodValidator/main.go:67-83 | the run ends in success iff some remaining attempt finds the Deployment ready |
| Rollout.PollBounds | PodValidator/main.go:67-83 | the loop terminates with at most six checks, five waits and one diagnosis |
| Rollout.PollEndsOnce | PodValidator/main.go:67-83 | a run has one Done event, at its end |
| Rollout.PollShape | PodValidator/main.go:67-83 | each wait leaves the counter at 1 or more and below its old value, and the counters decrease from wait to wait |
| Rollout.PollWaitsBetweenChecks | PodValidator/main.go:69-81 | the run starts with the check of the current attempt, and each wait that leaves the counter at c comes right after the check of attempt 7-(c+1) and right before the check of attempt 7-c |
| Rollout.PollFromFirstReady | PodValidator/main.go:69-81 | from any counter value: if attempt k is the first ready one, the run stops at k with the matching numbers of checks and waits and no diagnosis |
| Rollout.PollStopsAtFirstReady | PodValidator/main.go:69-72 | if attempt k is the first ready one: k checks, k-1 waits, no diagnosis, success right after the check of attempt k |
| Rollout.PollFromNeverReady | PodValidator/main.go:73-81 | from any counter value: if no remaining attempt is ready, the run has as many checks as the counter, one wait fewer and one diagnosis, length twice the counter plus one, and ends with Check(6), the diagnosis and Done(Failure); the order of the checks and waits is stated by `PollNeverReadyOrder` |
| Rollout.PollNeverReadyOrder | PodValidator/main.go:69-81 | from any counter value: if no remaining attempt is ready, the run before the diagnosis is the remaining checks in attempt order, each but the last followed by a wait that lowers the counter by one |
| Rollout.PollFailsWhenNeverReady | PodValidator/main.go:69-81 | if no attempt is ready, the run is Check(1), Wait(5), Check(2), …, Wait(1), Check(6), then the diagnosis and failure: six checks, five waits, one diagnosis |
| Rollout.PollConstantReadiness | PodValidator/main.go:52-83 | with the same readiness on every attempt, the run is either success on the first check or failure after six checks and five waits |
| Rollout.Poll | PodValidator/main.go:67-83 | the countdown loop produces exactly the trace `PollTrace`; its outcome is the trace's last event, and success iff some attempt 1..6 is ready |
| Rollout.Validate | PodValidator/main.go:52-83 | with the Deployment fetched once: success iff printDeploymentStatus holds, and then after one check; otherwise six checks, five waits and one diagnosis in thirteen events, ending with Check(6), the diagnosis `PodStatus` of the pods, and Done(Failure) |

## Left out

- Kubeconfig resolution, client construction and command-line arguments (main.go:22-50): setup I/O with no decision logic.
- Fetching the Deployment and listing its pods (main.go:52-65). The conditions and the pod list are inputs. The fatal exits on fetch errors are not modelled.
- The secret lookup and the log stream (main.go:103-104, 147) are the inputs `Cluster.secretFound` and `Cluster.logs`.
- Stream mechanics of `getPodlogs`: `bufio.Reader.ReadLine` splitting long lines, and read errors other than EOF. On such an error the Go loop prints and keeps reading, possibly forever. The log is a finite line sequence instead.
- A stream that fails to open (main.go:105-108): the Go code goes on with a nil stream and would crash. The model reads it as an empty log.
- `strings.ToLower` is modelled as ASCII-only lower-casing; Unicode case mapping is not modelled.
- The printed JSON of container states and all banners and message text (main.go:70-71, 74, 76, 79, 96-101, 112, 139, 144-145, 154-155). Notes and events are tags.
- `time.Sleep` and the real interval (main.go:80): waits are counted, not timed. The message mentions 60 seconds while the sleep is 2 seconds; this is cosmetic.
- Process exit (`log.Fatalf`, the panic on a pod without pull secrets): modelled as the outcome `Failure` and the `NoPullSecret` note. The banner after the diagnosis (main.go:76) is not modelled.
