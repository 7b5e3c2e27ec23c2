/**
 * The data model the approval controller works on: the parts of a cert-manager
 * CertificateRequest and of a Kubernetes Namespace that the controller reads or
 * writes, the identity keys of the controller runtime, and the collaborators the
 * controller calls (the cluster client, the policy evaluator, the event recorder).
 *
 * The collaborators are not modelled; each is an oracle: a total function from
 * what the controller passes it to what it answers. Everything the controller
 * does to them is recorded as an `Effect`, in order.
 */
module Kube {

  datatype Option<+T> = None | Some(value: T)

  /** A Go `error` value; its contents are never inspected by the controller. */
  datatype Error = Error(message: string)

  /** A result of a call that returns `(T, error)` in Go, or fills an object and returns an error. */
  datatype Result<+T> = Ok(value: T) | Err(error: Error)

  /** `types.NamespacedName`, also the key of a reconcile request. */
  datatype NamespacedName = NamespacedName(namespace: string, name: string)

  /** `metav1.Time`; the controller only copies it, so it stays opaque. */
  datatype Time = Time(instant: int)

  /** The condition type and status values of cert-manager's API. */
  const ConditionApproved: string := "Approved"
  const ConditionDenied: string := "Denied"
  const ConditionTrue: string := "True"

  /** `cm_v1.CertificateRequestCondition`. */
  datatype Condition = Condition(
    ctype: string,
    status: string,
    reason: string,
    message: string,
    lastTransitionTime: Option<Time>)

  /** `cm_v1.CertificateRequestStatus`: only the condition list matters here. */
  datatype CertificateRequestStatus = CertificateRequestStatus(conditions: seq<Condition>)

  /** `cm_v1.CertificateRequest`: its namespace, name and status; its spec and other metadata are not modelled. */
  datatype CertificateRequest = CertificateRequest(
    namespace: string,
    name: string,
    status: CertificateRequestStatus)

  /** `corev1.Namespace`: its name, labels and annotations; its other fields are not modelled. */
  datatype Namespace = Namespace(
    name: string,
    labels: map<string, string>,
    annotations: map<string, string>)

  /** The document handed to the policy: `{"object": cr, "namespace": namespace}`. */
  datatype PolicyInput = PolicyInput(request: CertificateRequest, namespace: Namespace)

  /** One evaluation request: a query inside a policy package, against an input. */
  datatype PolicyQuery = PolicyQuery(package: string, query: string, input: PolicyInput)

  /**
   * The cluster client as seen by the controller: the answers of `Get` for the two
   * object kinds, of `List` of certificate requests filtered by namespace, and of
   * `Status().Patch` given the target object and the patch base object. A stored
   * patch answers with the object as the server now holds it, which the client
   * decodes back into the target object in place.
   */
  datatype Client = Client(
    getRequest: NamespacedName -> Result<CertificateRequest>,
    getNamespace: NamespacedName -> Result<Namespace>,
    list: string -> Result<seq<CertificateRequest>>,
    patchStatus: (CertificateRequest, CertificateRequest) -> Result<CertificateRequest>)

  /**
   * The compiled policy program, seen through its evaluator: `Ok(b)` when the
   * query evaluates and `rs.Allowed()` is `b`, `Err(e)` when evaluation fails.
   */
  datatype Policy = Policy(eval: PolicyQuery -> Result<bool>)

  /** The `CertApprover` struct: the embedded client and the policy program. */
  datatype CertApprover = CertApprover(client: Client, policy: Policy)

  /** Event types of the Kubernetes event recorder. */
  const EventNormal: string := "Normal"
  const EventWarning: string := "Warning"

  /** What a reconciliation does to its collaborators, in the order it does it. */
  datatype Effect =
    | GetRequest(key: NamespacedName)
    | GetNamespace(key: NamespacedName)
    | Evaluate(query: PolicyQuery)
    | Patch(target: CertificateRequest, patch: CertificateRequest)
    | Event(target: CertificateRequest, eventtype: string, reason: string, message: string)
}
