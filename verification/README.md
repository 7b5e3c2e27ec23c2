# certapprover: the approval decision engine

certapprover is a Kubernetes controller that approves cert-manager
`CertificateRequest`s when a Rego policy allows them. This project models its
decision engine, the `CertApprover` controller in `approver.go`, and proves what
each step does.

- `kube.dfy` (module `Kube`) holds the data model. It covers the fields of a
  `CertificateRequest` (namespace, name, status conditions) and of a `Namespace`
  (name, labels, annotations) that the model keeps, the `NamespacedName` keys,
  and the policy input document. It also holds the collaborators the controller calls:
  - the cluster client (`Get` of a request, `Get` of a namespace, `List` of
    requests in a namespace, `Status().Patch`);
  - the compiled policy, seen through its evaluator.

  Each collaborator is an oracle: a total function from what the controller
  passes it to the answer it gives. `CertApprover` is the controller struct:
  its client and its policy. What the controller does to its collaborators is
  recorded as a sequence of `Effect`s: `GetRequest`, `GetNamespace`, `Evaluate`,
  `Patch`, `Event`.
- `approver.dfy` (module `Approver`) holds the controller itself:
  - the "already decided" check, as a predicate and as the scanning loop of the source;
  - the approval patch;
  - `Reconcile`, a method that appends to the effect trace step by step and
    returns the error handed back to controller-runtime;
  - the namespace fanout, which fills a preallocated array in a loop, as the
    source does.

The condition type and status values `Approved`, `Denied` and `True` are the
values of cert-manager's `CertificateRequestConditionApproved`,
`CertificateRequestConditionDenied` and `ConditionTrue`. Those constants are
defined outside `approver.go`. cert-manager's API packages are not part of this
model.

`Status().Patch` decodes the stored object back into the request it was given.
`Approve` returns that updated request, and `Reconcile` emits the Normal event
on it (`approver.go:83`, `approver.go:91`). A failed patch leaves the request
as it was fetched, and the Warning event carries that.

A failure to fetch the request, not-found included, is returned as the
reconcile error unchanged. It is not turned into a quiet success
(`approver.go:43-47`).

## Model

| member | source | states |
|---|---|---|
| `Approver.CertificateRequestIsDecided` | approver.go:99-109 | The loop returns true iff some condition has status `True` and type `Approved` or `Denied`. Other types and other statuses never count, and an empty list gives false. |
| `Approver.DecidedPermutation` | approver.go:99-109 | Reordering the conditions does not change whether a request is decided. |
| `Approver.DecidedAppend` | approver.go:99-109 | Appending conditions decides a request iff the old or the added conditions decide it. A decided request stays decided, and conditions that are not true-valued Approved/Denied never decide one. |
| `Approver.ApprovalCondition` | approver.go:117-123 | The condition written has type `Approved`, status `True`, reason `certapprover` and message "CertificateRequest has been approved by certapprover". Its transition time is the clock reading. It is decisive (true-valued, of type `Approved`). |
| `Approver.ApprovalPatch` | approver.go:112-126 | The patch object has the request's own namespace and name. Its status holds exactly one condition, the approval, so the patch object's own status is decided. |
| `Approver.ApprovalSettles` | approver.go:49-53 | Any status holding the approval condition is decided: if the stored status holds it, a later reconciliation of that request stops at the decided check. |
| `Approver.Approve` | approver.go:111-129 | Exactly one status patch is sent: the request is the target and the approval patch is the base. The store's error is returned unchanged. After a stored patch the request is the object the store answered with; after a failed one it is unchanged. |
| `Approver.Reconcile` | approver.go:39-97 | Per branch: a failed request fetch returns that error and does nothing else. A decided request returns nil and causes no namespace fetch, evaluation, patch or event. A failed namespace fetch (key: empty namespace, name = the reconcile key's namespace) returns that error. An evaluation error returns that error with no patch or event. Not allowed returns nil with no patch or event. Allowed with a stored patch gives one patch, then one Normal/Approval/"Accepted by policy" event on the stored object, and nil. Allowed with a failed patch gives one patch, then one Warning/Approval event, and the patch error. On every path: a patch only follows an evaluation that allowed it; an event only follows a patch, it is Normal iff the patch was stored, and it is about the request as the patch call left it; nothing writes a `Denied` condition. |
| `Approver.FindObjectsForNamespace` | approver.go:131-156 | Listing is by the namespace's name. A failed list gives the empty list. Otherwise the result has one entry per listed item, in the same order, and entry i has item i's name and namespace. |
| `Approver.FanoutMatchesStore` | approver.go:134-151 | Suppose the list returns exactly the stored requests of namespace N. Then the fanout's keys are exactly the keys of the stored requests in N. |

## Left out

- `main` (`approver.go:158-227`): flag parsing, reading policy files, policy
  compilation, scheme registration, manager and controller wiring, signal
  handling and process exit. This is process bootstrap.
- Object fields: a `CertificateRequest` keeps only its namespace, name and
  status conditions. Its spec (issuer reference, requester, usages, the CSR)
  and its labels, annotations and other metadata are dropped. A `Namespace`
  keeps only its name, labels and annotations. The whole objects go to the
  policy (`approver.go:63-66`), but the policy oracle here sees only the
  modelled fields. The contracts of `Approver.Reconcile` hold for every policy
  oracle, so they do not depend on which fields a policy reads.
- Rego compilation and evaluation: the policy is an oracle from the query
  (package `approval`, rule `allow`, input `{object, namespace}`) to
  allowed / not allowed / error. The evaluator is assumed deterministic:
  it is a function of its query. Rego built-ins that read the clock,
  randomness or the network are not modelled. The shape of the input map beyond "the request
  and its namespace" is not modelled. Neither is how `rs.Allowed()` reads a
  result set.
- The Kubernetes client `Get`, `List` and `Status().Patch`: oracles only. The
  strategic-merge semantics of the patch are not modelled, so the status stored
  after a patch is not modelled either. The call at `approver.go:128` passes the
  fetched request as the object and the approval object as the merge base
  (`StrategicMergeFrom(patch)`), so the diff sent runs from the approval object
  to the fetched request; the model records both arguments in that order but
  does not claim that sending the patch decides the request. Store-level idempotence of a repeated
  patch is not proved. `Approver.ApprovalSettles` covers only the
  controller-level guard.
- `metav1.Now()`: the clock is a parameter, `now`, of `Reconcile` and `Approve`.
- Logging, and delivery of events by the event recorder: events appear only as
  entries of the effect trace.
- `ctrl.Result`: `Reconcile` always returns its zero value (no requeue), so the
  model returns only the error.
- The `context.Context` arguments: cancellation and deadlines are not modelled.
- controller-runtime watches, the resource-version predicate,
  requeue/backoff and worker concurrency: the model covers one reconciliation
  and one fanout call at a time.
