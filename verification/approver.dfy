/**
 * The `CertApprover` controller: the check whether a certificate request is
 * already decided, the reconcile step that fetches a request and its namespace,
 * asks the policy and records an approval, and the fanout that turns a changed
 * namespace into the requests to reconcile again.
 */
module Approver {
  import opened Kube

  /** The policy package and the rule queried in it. */
  const PolicyPackage: string := "approval"
  const PolicyRule: string := "allow"

  /** The reason and message of the approval condition. */
  const ApprovalReason: string := "certapprover"
  const ApprovalMessage: string := "CertificateRequest has been approved by certapprover"

  /** The reason and messages of the events emitted after an allowed evaluation. */
  const EventReason: string := "Approval"
  const AcceptedMessage: string := "Accepted by policy"
  const PatchFailedMessage: string := "Unable to approve policy, even though accepted by policy"

  // ---------------------------------------------------------------------------
  // Decision state check

  /** A condition that settles a request: a true-valued Approved or Denied condition. */
  predicate Decisive(c: Condition) {
    c.status == ConditionTrue && (c.ctype == ConditionApproved || c.ctype == ConditionDenied)
  }

  /** A request is decided when some condition of its status is decisive. */
  predicate IsDecided(conditions: seq<Condition>) {
    exists i :: 0 <= i < |conditions| && Decisive(conditions[i])
  }

  /** Scans the conditions in order and stops at the first decisive one. */
  method CertificateRequestIsDecided(status: CertificateRequestStatus) returns (decided: bool)
    ensures decided == IsDecided(status.conditions)
  {
    for i := 0 to |status.conditions|
      invariant forall j :: 0 <= j < i ==> !Decisive(status.conditions[j])
    {
      var con := status.conditions[i];
      if con.status == ConditionTrue && (con.ctype == ConditionApproved || con.ctype == ConditionDenied) {
        return true;
      }
    }
    return false;
  }

  /** Whether a status is decided depends only on which conditions it holds, not on their order. */
  lemma DecidedPermutation(a: seq<Condition>, b: seq<Condition>)
    requires multiset(a) == multiset(b)
    ensures IsDecided(a) <==> IsDecided(b)
  {
    if IsDecided(a) {
      var i :| 0 <= i < |a| && Decisive(a[i]);
      assert a[i] in multiset(b);
      var j :| 0 <= j < |b| && b[j] == a[i];
    }
    if IsDecided(b) {
      var j :| 0 <= j < |b| && Decisive(b[j]);
      assert b[j] in multiset(a);
      var i :| 0 <= i < |a| && a[i] == b[j];
    }
  }

  /**
   * Adding conditions decides a request exactly when one of the added conditions
   * is decisive: a decided request stays decided, and conditions of other types or
   * with a status other than True never decide one.
   */
  lemma DecidedAppend(a: seq<Condition>, b: seq<Condition>)
    ensures IsDecided(a + b) <==> IsDecided(a) || IsDecided(b)
  {
    if IsDecided(a + b) {
      var i :| 0 <= i < |a + b| && Decisive((a + b)[i]);
      if i < |a| {
        assert a[i] == (a + b)[i];
      } else {
        assert b[i - |a|] == (a + b)[i];
      }
    }
    if IsDecided(a) {
      var i :| 0 <= i < |a| && Decisive(a[i]);
      assert (a + b)[i] == a[i];
    }
    if IsDecided(b) {
      var i :| 0 <= i < |b| && Decisive(b[i]);
      assert (a + b)[|a| + i] == b[i];
    }
  }

  // ---------------------------------------------------------------------------
  // Approval

  /** The condition the controller writes: Approved, True, with a fixed reason and message. */
  function ApprovalCondition(now: Time): (c: Condition)
    ensures Decisive(c) && c.ctype == ConditionApproved
    ensures c.reason == ApprovalReason && c.message == ApprovalMessage
    ensures c.lastTransitionTime == Some(now)
  {
    Condition("Approved", "True", ApprovalReason, ApprovalMessage, Some(now))
  }

  /** The patch object: the request's own identity, and a status holding only the approval. */
  function ApprovalPatch(cr: CertificateRequest, now: Time): (p: CertificateRequest)
    ensures p.namespace == cr.namespace && p.name == cr.name
    ensures |p.status.conditions| == 1 && p.status.conditions[0] == ApprovalCondition(now)
    ensures IsDecided(p.status.conditions)
  {
    CertificateRequest(cr.namespace, cr.name,
      CertificateRequestStatus([ApprovalCondition(now)]))
  }

  /**
   * Any status that holds the approval condition is decided: if the stored status
   * holds it, a later reconciliation of the same request stops at the decided check.
   */
  lemma ApprovalSettles(conditions: seq<Condition>, now: Time)
    requires ApprovalCondition(now) in conditions
    ensures IsDecided(conditions)
  {
  }

  /**
   * Sends the approval patch for `cr`, stamped with `now`, and returns the store's
   * error as-is. `updated` is `cr` after the call: the stored object when the patch
   * succeeded (the client writes it back into `cr`), `cr` unchanged otherwise.
   */
  method Approve(ca: CertApprover, cr: CertificateRequest, now: Time)
    returns (err: Option<Error>, updated: CertificateRequest, effects: seq<Effect>)
    ensures effects == [Patch(cr, ApprovalPatch(cr, now))]
    ensures match ca.client.patchStatus(cr, ApprovalPatch(cr, now))
      case Ok(stored) => err == None && updated == stored
      case Err(e) => err == Some(e) && updated == cr
  {
    var transitionTime := now;
    var patch := ApprovalPatch(cr, transitionTime);
    effects := [Patch(cr, patch)];
    var answer := ca.client.patchStatus(cr, patch);
    if answer.Err? {
      return Some(answer.error), cr, effects;
    }
    return None, answer.value, effects;
  }

  // ---------------------------------------------------------------------------
  // Reconcile

  /** The key the namespace is fetched by: no namespace, and the reconcile key's namespace as name. */
  function NamespaceKey(req: NamespacedName): NamespacedName {
    NamespacedName("", req.namespace)
  }

  /** The query put to the policy for a request and its namespace. */
  function ApprovalQuery(cr: CertificateRequest, ns: Namespace): PolicyQuery {
    PolicyQuery(PolicyPackage, PolicyRule, PolicyInput(cr, ns))
  }

  /** Every condition a patch writes is an Approved one, so no Denied condition is ever written. */
  predicate WritesOnlyApproval(effects: seq<Effect>) {
    forall i :: 0 <= i < |effects| && effects[i].Patch? ==>
      forall c <- effects[i].patch.status.conditions :: c.ctype == ConditionApproved
  }

  /**
   * One reconciliation of the request with key `req`; `now` is the clock reading
   * the approval would carry. Returns the error handed back to the controller
   * runtime (`None` for nil) and the effects on the collaborators, in order.
   */
  method Reconcile(ca: CertApprover, req: NamespacedName, now: Time) returns (err: Option<Error>, effects: seq<Effect>)
    // The request is always fetched first, by the reconcile key.
    ensures |effects| >= 1 && effects[0] == GetRequest(req)
    // A failed fetch, not-found included, is returned as-is and nothing follows.
    ensures ca.client.getRequest(req).Err? ==>
      err == Some(ca.client.getRequest(req).error) && effects == [GetRequest(req)]
    // A decided request is left alone: no namespace fetch, evaluation, patch or event.
    ensures ca.client.getRequest(req).Ok? && IsDecided(ca.client.getRequest(req).value.status.conditions) ==>
      err == None && effects == [GetRequest(req)]
    // Otherwise the namespace named by the reconcile key is fetched next.
    ensures var got := ca.client.getRequest(req);
      got.Ok? && !IsDecided(got.value.status.conditions) ==>
        |effects| >= 2 && effects[1] == GetNamespace(NamespaceKey(req))
    // A failed namespace fetch is returned as-is and nothing follows.
    ensures var got, ns := ca.client.getRequest(req), ca.client.getNamespace(NamespaceKey(req));
      got.Ok? && !IsDecided(got.value.status.conditions) && ns.Err? ==>
        err == Some(ns.error) && |effects| == 2
    // Otherwise the policy is asked about the request and its namespace.
    ensures var got, ns := ca.client.getRequest(req), ca.client.getNamespace(NamespaceKey(req));
      got.Ok? && !IsDecided(got.value.status.conditions) && ns.Ok? ==>
        |effects| >= 3 && effects[2] == Evaluate(ApprovalQuery(got.value, ns.value))
    // An evaluation error is returned as-is: no patch, no event.
    ensures var got, ns := ca.client.getRequest(req), ca.client.getNamespace(NamespaceKey(req));
      got.Ok? && !IsDecided(got.value.status.conditions) && ns.Ok? &&
      ca.policy.eval(ApprovalQuery(got.value, ns.value)).Err? ==>
        err == Some(ca.policy.eval(ApprovalQuery(got.value, ns.value)).error) && |effects| == 3
    // Not allowed: success, and nothing is written and no event emitted.
    ensures var got, ns := ca.client.getRequest(req), ca.client.getNamespace(NamespaceKey(req));
      got.Ok? && !IsDecided(got.value.status.conditions) && ns.Ok? &&
      ca.policy.eval(ApprovalQuery(got.value, ns.value)) == Ok(false) ==>
        err == None && |effects| == 3
    // Allowed and patched: one patch, then one Normal event on the stored object, and success.
    ensures var got, ns := ca.client.getRequest(req), ca.client.getNamespace(NamespaceKey(req));
      got.Ok? && !IsDecided(got.value.status.conditions) && ns.Ok? &&
      ca.policy.eval(ApprovalQuery(got.value, ns.value)) == Ok(true) &&
      ca.client.patchStatus(got.value, ApprovalPatch(got.value, now)).Ok? ==>
        err == None && |effects| == 5 &&
        effects[3] == Patch(got.value, ApprovalPatch(got.value, now)) &&
        effects[4] == Event(ca.client.patchStatus(got.value, ApprovalPatch(got.value, now)).value,
                            EventNormal, EventReason, AcceptedMessage)
    // Allowed but the patch failed: one Warning event, no Normal event, and the patch error.
    ensures var got, ns := ca.client.getRequest(req), ca.client.getNamespace(NamespaceKey(req));
      got.Ok? && !IsDecided(got.value.status.conditions) && ns.Ok? &&
      ca.policy.eval(ApprovalQuery(got.value, ns.value)) == Ok(true) &&
      ca.client.patchStatus(got.value, ApprovalPatch(got.value, now)).Err? ==>
        err == Some(ca.client.patchStatus(got.value, ApprovalPatch(got.value, now)).error) && |effects| == 5 &&
        effects[3] == Patch(got.value, ApprovalPatch(got.value, now)) &&
        effects[4] == Event(got.value, EventWarning, EventReason, PatchFailedMessage)
    // Across all paths: a patch only ever follows an evaluation that allowed it ...
    ensures forall i :: 0 <= i < |effects| && effects[i].Patch? ==>
      0 < i && effects[i - 1].Evaluate? && ca.policy.eval(effects[i - 1].query) == Ok(true)
    // ... an event only ever follows a patch, its type says whether the patch was stored,
    // and it is about the request as it stands after the patch call ...
    ensures forall i :: 0 <= i < |effects| && effects[i].Event? ==>
      0 < i && effects[i - 1].Patch? &&
      var answer := ca.client.patchStatus(effects[i - 1].target, effects[i - 1].patch);
      (effects[i].eventtype == EventNormal <==> answer.Ok?) &&
      effects[i].target == (if answer.Ok? then answer.value else effects[i - 1].target)
    // ... and no Denied condition is ever written.
    ensures WritesOnlyApproval(effects)
  {
    effects := [GetRequest(req)];
    var got := ca.client.getRequest(req);
    if got.Err? {
      return Some(got.error), effects;
    }
    var cr := got.value;

    var decided := CertificateRequestIsDecided(cr.status);
    if decided {
      return None, effects;
    }

    var nsKey := NamespaceKey(req);
    effects := effects + [GetNamespace(nsKey)];
    var gotNs := ca.client.getNamespace(nsKey);
    if gotNs.Err? {
      return Some(gotNs.error), effects;
    }
    var namespace := gotNs.value;

    var query := ApprovalQuery(cr, namespace);
    effects := effects + [Evaluate(query)];
    var rs := ca.policy.eval(query);
    if rs.Err? {
      return Some(rs.error), effects;
    }

    if rs.value {
      var patchErr, patchEffects;
      patchErr, cr, patchEffects := Approve(ca, cr, now);
      effects := effects + patchEffects;
      if patchErr.Some? {
        effects := effects + [Event(cr, EventWarning, EventReason, PatchFailedMessage)];
        return patchErr, effects;
      }
      effects := effects + [Event(cr, EventNormal, EventReason, AcceptedMessage)];
      return None, effects;
    }

    return None, effects;
  }

  // ---------------------------------------------------------------------------
  // Namespace fanout

  /** The reconcile key of a request: its namespace and name. */
  function Identity(cr: CertificateRequest): NamespacedName {
    NamespacedName(cr.namespace, cr.name)
  }

  /**
   * The keys to reconcile again after `namespace` changed: the identities of the
   * requests the client lists in that namespace, in list order, or none when the
   * list call fails.
   */
  method FindObjectsForNamespace(ca: CertApprover, namespace: Namespace) returns (requests: seq<NamespacedName>)
    ensures ca.client.list(namespace.name).Err? ==> requests == []
    ensures ca.client.list(namespace.name).Ok? ==>
      var items := ca.client.list(namespace.name).value;
      |requests| == |items| &&
      forall i :: 0 <= i < |items| ==>
        requests[i].name == items[i].name && requests[i].namespace == items[i].namespace
  {
    var listed := ca.client.list(namespace.name);
    if listed.Err? {
      return [];
    }
    var items := listed.value;

    var keys := new NamespacedName[|items|];
    for i := 0 to |items|
      invariant forall j :: 0 <= j < i ==> keys[j] == Identity(items[j])
    {
      keys[i] := Identity(items[i]);
    }
    requests := keys[..];
  }

  /**
   * When the listed requests are exactly the stored requests of namespace `n`, the
   * fanout yields exactly the keys of those stored requests.
   */
  lemma FanoutMatchesStore(items: seq<CertificateRequest>, requests: seq<NamespacedName>,
                           stored: set<CertificateRequest>, n: string)
    requires |requests| == |items|
    requires forall i :: 0 <= i < |items| ==>
      requests[i].name == items[i].name && requests[i].namespace == items[i].namespace
    requires forall r :: r in items <==> r in stored && r.namespace == n
    ensures forall k :: k in requests <==> exists r :: r in stored && r.namespace == n && Identity(r) == k
  {
  }
}
