// pkg/ironic/utils.go: how far a workload, a service or a job has come.
module Workloads {
  import opened Options
  import opened Cluster

  /* ---- Deployments ---- */

  // A failure that ends the scan of the conditions.
  function DeploymentFailure(c: DeploymentCondition): Option<Progress> {
    if c.kind.Progressing? && c.status.False? && c.reason.ProgressDeadlineExceeded? then Some(Fatal(StoppedProgressing))
    else if c.kind.ReplicaFailure? && c.status.True? then Some(Transient)
    else None
  }

  predicate RolledOut(c: DeploymentCondition, s: DeploymentStatus) {
    c.reason.NewReplicaSetAvailable? && s.updatedReplicas >= s.replicas
  }

  // The first failure among the conditions, if any.
  function FirstFailure(cs: seq<DeploymentCondition>): Option<Progress> {
    if |cs| == 0 then None
    else if DeploymentFailure(cs[0]).Some? then DeploymentFailure(cs[0])
    else FirstFailure(cs[1..])
  }

  predicate IsAvailable(cs: seq<DeploymentCondition>) {
    exists c | c in cs :: c.kind.DeploymentAvailable? && c.status.True?
  }

  // The verdict of the last progress condition: earlier ones are overridden.
  predicate IsUpdated(cs: seq<DeploymentCondition>, s: DeploymentStatus) {
    |cs| > 0 &&
    (if cs[|cs| - 1].kind.Progressing? then RolledOut(cs[|cs| - 1], s) else IsUpdated(cs[..|cs| - 1], s))
  }

  function DeploymentProgress(d: Deployment): Progress {
    if d.status.observed != d.generation then Waiting(NotObserved)
    else if FirstFailure(d.status.conditions).Some? then FirstFailure(d.status.conditions).value
    else if IsAvailable(d.status.conditions) && IsUpdated(d.status.conditions, d.status) then Ready
    else Waiting(NotAvailable)
  }

  lemma {:induction false} FirstFailureAppend(cs: seq<DeploymentCondition>, c: DeploymentCondition)
    ensures FirstFailure(cs + [c]) == if FirstFailure(cs).Some? then FirstFailure(cs) else DeploymentFailure(c)
  {
    if |cs| > 0 {
      assert (cs + [c])[1..] == cs[1..] + [c];
      FirstFailureAppend(cs[1..], c);
    } else {
      assert (cs + [c])[1..] == [];
    }
  }

  lemma {:induction false} FirstFailurePrefix(cs: seq<DeploymentCondition>, n: nat)
    requires n <= |cs| && FirstFailure(cs[..n]).Some?
    ensures FirstFailure(cs) == FirstFailure(cs[..n])
  {
    if DeploymentFailure(cs[0]).None? {
      assert cs[..n][1..] == cs[1..][..n - 1];
      FirstFailurePrefix(cs[1..], n - 1);
    }
  }

  method GetDeploymentStatus(d: Deployment) returns (progress: Progress)
    ensures progress == DeploymentProgress(d)
  {
    if d.status.observed != d.generation {
      return Waiting(NotObserved);
    }
    var cs := d.status.conditions;
    var available, updated := false, false;
    for i := 0 to |cs|
      invariant FirstFailure(cs[..i]).None?
      invariant available == IsAvailable(cs[..i])
      invariant updated == IsUpdated(cs[..i], d.status)
    {
      var c := cs[i];
      assert cs[..i + 1] == cs[..i] + [c];
      FirstFailureAppend(cs[..i], c);
      if c.kind.Progressing? {
        if c.status.False? && c.reason.ProgressDeadlineExceeded? {
          FirstFailurePrefix(cs, i + 1);
          return Fatal(StoppedProgressing);
        }
        updated := c.reason.NewReplicaSetAvailable? && d.status.updatedReplicas >= d.status.replicas;
      }
      if c.kind.DeploymentAvailable? && c.status.True? {
        available := true;
      }
      if c.kind.ReplicaFailure? && c.status.True? {
        FirstFailurePrefix(cs, i + 1);
        return Transient;
      }
    }
    assert cs[..|cs|] == cs;
    if available && updated {
      return Ready;
    }
    return Waiting(NotAvailable);
  }

  /* ---- What the progress of a deployment means ---- */

  ghost predicate StoppedBy(c: DeploymentCondition) {
    c.kind.Progressing? && c.status.False? && c.reason.ProgressDeadlineExceeded?
  }

  ghost predicate FailedBy(c: DeploymentCondition) {
    c.kind.ReplicaFailure? && c.status.True?
  }

  // The last progress condition is at position i, and tells of the new replicas.
  ghost predicate RolledOutAt(cs: seq<DeploymentCondition>, i: nat) {
    && i < |cs| && cs[i].kind.Progressing? && cs[i].reason.NewReplicaSetAvailable?
    && forall j | i < j < |cs| :: !cs[j].kind.Progressing?
  }

  // The newest generation is rolled out and up.
  ghost predicate DeploymentUp(d: Deployment) {
    var cs := d.status.conditions;
    && d.status.observed == d.generation
    && (forall i | 0 <= i < |cs| :: !StoppedBy(cs[i]) && !FailedBy(cs[i]))
    && (exists i | 0 <= i < |cs| :: cs[i].kind.DeploymentAvailable? && cs[i].status.True?)
    && (exists i: nat :: RolledOutAt(cs, i))
    && d.status.updatedReplicas >= d.status.replicas
  }

  // The first failing condition is at position i, and the status is current.
  ghost predicate FirstFails(d: Deployment, i: nat) {
    var cs := d.status.conditions;
    && d.status.observed == d.generation && i < |cs|
    && (StoppedBy(cs[i]) || FailedBy(cs[i]))
    && forall j | 0 <= j < i :: !StoppedBy(cs[j]) && !FailedBy(cs[j])
  }

  // Ready means up; a deployment that stopped progressing needs the user, and
  // one that fails to get replicas is tried again.
  lemma DeploymentProgressMeans(d: Deployment)
    ensures DeploymentProgress(d).Ready? <==> DeploymentUp(d)
    ensures DeploymentProgress(d).Fatal? <==>
      exists i: nat :: FirstFails(d, i) && StoppedBy(d.status.conditions[i])
    ensures DeploymentProgress(d).Transient? <==>
      exists i: nat :: FirstFails(d, i) && FailedBy(d.status.conditions[i])
    ensures !DeploymentProgress(d).Updating?
  {
    var cs := d.status.conditions;
    FirstFailureMeans(cs);
    LastProgressMeans(cs, d.status);
    if i :| 0 <= i < |cs| && cs[i].kind.DeploymentAvailable? && cs[i].status.True? {
      assert cs[i] in cs;
    }
  }

  lemma {:induction false} FirstFailureMeans(cs: seq<DeploymentCondition>)
    ensures match FirstFailure(cs)
      case None => forall i | 0 <= i < |cs| :: !StoppedBy(cs[i]) && !FailedBy(cs[i])
      case Some(failure) =>
        exists i | 0 <= i < |cs| ::
          && (forall j | 0 <= j < i :: !StoppedBy(cs[j]) && !FailedBy(cs[j]))
          && (if StoppedBy(cs[i]) then failure.Fatal? else FailedBy(cs[i]) && failure.Transient?)
  {
    if |cs| > 0 && DeploymentFailure(cs[0]).None? {
      FirstFailureMeans(cs[1..]);
      if FirstFailure(cs).Some? {
        var i :| 0 <= i < |cs| - 1
          && (forall j | 0 <= j < i :: !StoppedBy(cs[1..][j]) && !FailedBy(cs[1..][j]))
          && (if StoppedBy(cs[1..][i]) then FirstFailure(cs).value.Fatal?
              else FailedBy(cs[1..][i]) && FirstFailure(cs).value.Transient?);
        assert cs[i + 1] == cs[1..][i];
        forall j | 0 <= j < i + 1 ensures !StoppedBy(cs[j]) && !FailedBy(cs[j]) {
          if j > 0 {
            assert cs[j] == cs[1..][j - 1];
          }
        }
      } else {
        forall i | 0 <= i < |cs| ensures !StoppedBy(cs[i]) && !FailedBy(cs[i]) {
          if i > 0 {
            assert cs[i] == cs[1..][i - 1];
          }
        }
      }
    }
  }

  lemma {:induction false} LastProgressMeans(cs: seq<DeploymentCondition>, s: DeploymentStatus)
    ensures IsUpdated(cs, s) <==> s.updatedReplicas >= s.replicas && exists i: nat :: RolledOutAt(cs, i)
  {
    if |cs| > 0 {
      var n := |cs| - 1;
      if cs[n].kind.Progressing? {
        assert cs[n].reason.NewReplicaSetAvailable? ==> RolledOutAt(cs, n);
      } else {
        LastProgressMeans(cs[..n], s);
        assert forall i: nat :: RolledOutAt(cs[..n], i) <==> RolledOutAt(cs, i);
      }
    }
  }

  /* ---- Daemon sets, services ---- */

  function DaemonSetProgress(d: DaemonSet): Progress {
    if d.status.observed != d.generation then Waiting(NotObserved)
    else if d.status.unavailable == 0 && d.status.updated >= d.status.desired then Ready
    else Waiting(NotAvailable)
  }

  // The newest generation runs on every node that it should run on.
  ghost predicate DaemonSetUp(d: DaemonSet) {
    && d.status.observed == d.generation
    && d.status.unavailable == 0 && d.status.updated >= d.status.desired
  }

  lemma DaemonSetProgressMeans(d: DaemonSet)
    ensures DaemonSetProgress(d).Ready? <==> DaemonSetUp(d)
    ensures !DaemonSetProgress(d).Ready? ==> DaemonSetProgress(d).Waiting?
  {
  }

  function ServiceProgress(s: Service): Progress {
    if s.clusterIPs then Ready else Waiting(NoClusterIPs)
  }

  /* ---- Jobs ---- */

  // The first terminal condition decides.
  function JobProgress(cs: seq<JobCondition>, phase: JobPhase): Progress {
    if |cs| == 0 then Waiting(JobNotComplete(phase))
    else if cs[0].status then (if cs[0].JobComplete? then Ready else Fatal(JobFailed(phase)))
    else JobProgress(cs[1..], phase)
  }

  lemma {:induction false} JobProgressSkips(cs: seq<JobCondition>, n: nat, phase: JobPhase)
    requires n <= |cs|
    requires forall i | 0 <= i < n :: !cs[i].status
    ensures JobProgress(cs, phase) == JobProgress(cs[n..], phase)
  {
    if n > 0 {
      assert cs[1..][n - 1..] == cs[n..];
      JobProgressSkips(cs[1..], n - 1, phase);
    } else {
      assert cs[0..] == cs;
    }
  }

  method GetJobStatus(job: Job, phase: JobPhase) returns (progress: Progress)
    ensures progress == JobProgress(job.conditions, phase)
  {
    var cs := job.conditions;
    for i := 0 to |cs|
      invariant forall j | 0 <= j < i :: !cs[j].status
    {
      if cs[i].status {
        JobProgressSkips(cs, i, phase);
        if cs[i].JobComplete? {
          return Ready;
        }
        return Fatal(JobFailed(phase));
      }
    }
    JobProgressSkips(cs, |cs|, phase);
    return Waiting(JobNotComplete(phase));
  }

  // A job counts as done exactly when some complete condition holds and no
  // failure was reported before it, and as failed the other way round.
  lemma {:induction false} JobDoneMeans(cs: seq<JobCondition>, phase: JobPhase)
    ensures JobProgress(cs, phase).Ready? <==> exists i: nat :: EndsAt(cs, i) && cs[i].JobComplete?
    ensures JobProgress(cs, phase).Fatal? <==> exists i: nat :: EndsAt(cs, i) && cs[i].JobFailure?
    ensures !JobProgress(cs, phase).Ready? && !JobProgress(cs, phase).Fatal? ==>
      JobProgress(cs, phase) == Waiting(JobNotComplete(phase))
  {
    if |cs| > 0 && !cs[0].status {
      JobDoneMeans(cs[1..], phase);
      assert forall i: nat :: EndsAt(cs[1..], i) <==> EndsAt(cs, i + 1) by {
        LaterEnds(cs);
      }
      if i: nat :| EndsAt(cs, i) {
        assert EndsAt(cs[1..], i - 1) && cs[1..][i - 1] == cs[i];
      }
      if i: nat :| EndsAt(cs[1..], i) {
        assert EndsAt(cs, i + 1) && cs[i + 1] == cs[1..][i];
      }
    } else if |cs| > 0 {
      assert EndsAt(cs, 0);
      assert forall i: nat :: EndsAt(cs, i) ==> i == 0;
    }
  }

  // The first condition that holds is at position i.
  ghost predicate EndsAt(cs: seq<JobCondition>, i: nat) {
    i < |cs| && cs[i].status && forall j | 0 <= j < i :: !cs[j].status
  }

  lemma LaterEnds(cs: seq<JobCondition>)
    requires |cs| > 0 && !cs[0].status
    ensures forall i: nat :: EndsAt(cs[1..], i) <==> EndsAt(cs, i + 1)
  {
    forall i: nat ensures EndsAt(cs[1..], i) <==> EndsAt(cs, i + 1) {
      if i < |cs| - 1 {
        assert cs[1..][i] == cs[i + 1];
        assert forall j | 0 <= j < i :: cs[1..][j] == cs[j + 1];
      }
    }
  }
}
