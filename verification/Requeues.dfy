// Which reconciles ask for another one: those that wrote something that the
// cluster now has to work on, with one exception.
module Requeues {
  import opened Options
  import opened Versions
  import opened Cluster
  import opened Workloads
  import opened SwitchSecrets
  import opened Networking
  import opened Upgrades
  import opened Deploy
  import opened Controller
  import opened Convergence
  import opened Targets
  import opened Preparation
  import opened Ordering

  // The workload of the kind that the spec asks for was written.
  ghost predicate WorkloadWrote(s: Store, t: Store)
    requires s.ironic.Some?
  {
    if s.ironic.value.spec.highAvailability then t.daemonSet != s.daemonSet else t.deployment != s.deployment
  }

  // So was something that goes with it.
  ghost predicate OthersWrote(s: Store, t: Store) {
    t.jobs != s.jobs || t.service != s.service || t.ingress != s.ingress || (t.monitor && !s.monitor)
  }

  // The exception: what comes after the workload is as it should be, but waits
  // for an address of the service, or for the data job.
  ghost predicate HeldUp(s: Store, version: string)
    requires s.ironic.Some?
  {
    var ironic := s.ironic.value;
    var key := JobFrom(ironic.status.installed, Post, version);
    && ServiceAsked(s, version)
    && (|| !s.service.value.clusterIPs
        || (&& IngressAsked(s, version)
            && ironic.spec.database && version != ironic.status.installed
            && key in s.jobs && s.jobs[key].template == JobTemplate(version, ironic.spec.jobSettings)
            && !Complete(s.jobs[key])))
  }

  /* ---- The phases ---- */

  lemma JobFollowsUp(s: Store, phase: JobPhase, version: string, input: Input)
    requires s.ironic.Some?
    ensures var stage := EnsureUpgradeJob(s, phase, version, input);
      var ironic := s.ironic.value;
      var key := JobFrom(ironic.status.installed, phase, version);
      && stage.store == s.(jobs := stage.store.jobs, journal := stage.store.journal)
      && (stage.store.jobs != s.jobs ==> stage.Held? && stage.progress.NeedsRequeue())
      && (stage.Held? && !stage.progress.NeedsRequeue() ==>
            && ironic.spec.database && version != ironic.status.installed
            && key in s.jobs && s.jobs[key].template == JobTemplate(version, ironic.spec.jobSettings)
            && !Complete(s.jobs[key]))
      && (Working(input) && ironic.spec.database && version != ironic.status.installed
          && key in s.jobs && s.jobs[key].template == JobTemplate(version, ironic.spec.jobSettings)
          && !Complete(s.jobs[key]) ==>
            stage.Held? && !stage.progress.NeedsRequeue())
  {
    var key := UpgradeJob(s.ironic.value, phase, version);
    if key in s.jobs {
      JobDoneMeans(s.jobs[key].conditions, phase);
      JobIsNeverTransient(s.jobs[key].conditions, phase);
      JobIsNeverUpdating(s.jobs[key].conditions, phase);
    }
    hide JobProgress;
  }

  lemma {:induction false} JobIsNeverUpdating(conditions: seq<JobCondition>, phase: JobPhase)
    ensures !JobProgress(conditions, phase).Updating?
  {
    if |conditions| > 0 {
      JobIsNeverUpdating(conditions[1..], phase);
    }
  }

  lemma ServiceFollowsUp(s: Store, version: string, input: Input)
    requires s.ironic.Some?
    ensures var stage := EnsureService(s, version, input);
      && stage.store == s.(service := stage.store.service)
      && (stage.store.service != s.service ==> stage.Held? && stage.progress.NeedsRequeue())
      && (stage.Held? && !stage.progress.NeedsRequeue() ==> ServiceAsked(s, version) && !s.service.value.clusterIPs)
      && (stage.Passed? ==> ServiceAsked(s, version) && s.service.value.clusterIPs)
      && (Working(input) && ServiceAsked(s, version) ==>
            if s.service.value.clusterIPs then stage == Passed(s) else stage.Held? && !stage.progress.NeedsRequeue())
  {
  }

  lemma IngressFollowsUp(s: Store, version: string, input: Input)
    requires s.ironic.Some?
    ensures var stage := EnsureIngress(s, version, input);
      && stage.store == s.(ingress := stage.store.ingress)
      && (stage.store.ingress != s.ingress ==> stage.Held?)
      && (stage.Held? ==> stage.progress.NeedsRequeue())
      && (stage.Passed? ==> IngressAsked(s, version))
      && (Working(input) && IngressAsked(s, version) ==> stage == Passed(s))
  {
  }

  lemma MonitorFollowsUp(s: Store, input: Input)
    requires s.ironic.Some?
    ensures var stage := EnsureMonitor(s, input);
      && stage.store == s.(monitor := stage.store.monitor)
      && (stage.store.monitor && !s.monitor ==> stage.Held?)
      && (stage.Held? ==> stage.progress.NeedsRequeue())
  {
  }

  lemma AccessFollowsUp(s: Store, version: string, input: Input)
    requires s.ironic.Some?
    ensures var stage := EnsureAccess(s, version, input);
      var t := stage.store;
      && t == s.(service := t.service, ingress := t.ingress, jobs := t.jobs, monitor := t.monitor, journal := t.journal)
      && (OthersWrote(s, t) ==> stage.Held? && stage.progress.NeedsRequeue())
      && (stage.Held? && !stage.progress.NeedsRequeue() ==> HeldUp(s, version))
      && (Working(input) && HeldUp(s, version) ==> stage.Held? && !stage.progress.NeedsRequeue())
  {
    hide EnsureService, EnsureIngress, EnsureUpgradeJob, EnsureMonitor, Working, ServiceAsked, IngressAsked, Complete;
    ServiceFollowsUp(s, version, input);
    var service := EnsureService(s, version, input);
    if service.Held? {
      assert EnsureAccess(s, version, input) == service;
    } else {
      IngressFollowsUp(s, version, input);
      var ingress := EnsureIngress(s, version, input);
      if ingress.Held? {
        assert EnsureAccess(s, version, input) == ingress;
      } else {
        JobFollowsUp(s, Post, version, input);
        var job := EnsureUpgradeJob(s, Post, version, input);
        if job.Held? {
          assert EnsureAccess(s, version, input) == job;
        } else {
          MonitorFollowsUp(job.store, input);
          assert EnsureAccess(s, version, input) == EnsureMonitor(job.store, input);
        }
      }
    }
  }

  lemma WorkloadFollowsUp(s: Store, version: string, input: Input)
    requires s.ironic.Some?
    ensures var (t, progress) := EnsureWorkload(s, version, input);
      && t == s.(deployment := t.deployment, daemonSet := t.daemonSet, journal := t.journal)
      && (if s.ironic.value.spec.highAvailability then t.deployment == s.deployment else t.daemonSet == s.daemonSet)
      && (WorkloadWrote(s, t) ==> if Working(input) then progress.Updating? else progress.NeedsRequeue())
  {
    hide DeploymentProgress, DaemonSetProgress;
    assert Working(input) ==> input.faults(GetWorkload).Acked? && input.faults(WriteWorkload).Acked?;
    hide Working;
  }

  lemma HeldUpFrame(s: Store, t: Store, version: string)
    requires s.ironic.Some? && t.ironic == s.ironic
    requires t.service == s.service && t.ingress == s.ingress && t.jobs == s.jobs
    ensures HeldUp(t, version) == HeldUp(s, version)
  {
    hide Complete;
  }

  lemma DeployFollowsUp(s: Store, version: string, input: Input)
    requires s.ironic.Some?
    ensures var (t, progress) := EnsureIronic(s, version, input);
      && t.ironic == s.ironic
      && (OthersWrote(s, t) ==> progress.NeedsRequeue())
      && (WorkloadWrote(s, t) ==> progress.NeedsRequeue() || HeldUp(s, version))
      && (Working(input) && WorkloadWrote(s, t) ==> (progress.NeedsRequeue() <==> !HeldUp(s, version)))
  {
    hide EnsureUpgradeJob, RemoveOtherWorkload, EnsureWorkload, EnsureAccess, HeldUp, Working, Complete;
    if input.valid(s.ironic.value.spec) {
      JobFollowsUp(s, Pre, version, input);
      var job := EnsureUpgradeJob(s, Pre, version, input);
      if job.Passed? {
        RemoveOtherFrame(job.store, input);
        OtherKindOnly(job.store, input);
        var alone := RemoveOtherWorkload(job.store, input);
        if alone.Passed? {
          WorkloadFollowsUp(alone.store, version, input);
          var (w, progress) := EnsureWorkload(alone.store, version, input);
          HeldUpFrame(s, w, version);
          if !progress.Fatal? && !progress.Transient? {
            AccessFollowsUp(w, version, input);
          }
        }
      }
    }
  }

  lemma OtherKindOnly(s: Store, input: Input)
    requires s.ironic.Some?
    ensures !WorkloadWrote(s, RemoveOtherWorkload(s, input).store)
  {
  }

  // It does happen that writing the workload is not followed up: a Deployment
  // is created while the service, otherwise as asked for, has no address.
  lemma CreatedButHeldUp(s: Store, version: string, input: Input)
    requires s.ironic.Some? && Working(input) && input.valid(s.ironic.value.spec)
    requires !s.ironic.value.spec.database && !s.ironic.value.spec.highAvailability
    requires s.deployment.None? && ServiceAsked(s, version) && !s.service.value.clusterIPs
    ensures var (t, progress) := EnsureIronic(s, version, input);
      t.deployment.Some? && !progress.NeedsRequeue()
  {
    DeployFollowsUp(s, version, input);
    assert HeldUp(s, version);
    hide HeldUp;
    assert input.faults(DeleteOtherWorkload).Acked?;
    assert input.faults(GetWorkload).Acked? && input.faults(WriteWorkload).Acked?;
    var alone := RemoveOtherWorkload(s, input);
    var (w, progress) := EnsureWorkload(alone.store, version, input);
    assert w.deployment.Some? && progress.Updating?;
    AccessFollowsUp(w, version, input);
    hide EnsureWorkload, EnsureAccess, RemoveOtherWorkload;
  }

  /* ---- Whole reconciles ---- */

  // A reconcile that wrote a job, the service or the ingress, or created the
  // monitor, asks for another one or fails. So does one that wrote the
  // workload, except when it was held up by something that came after it; with
  // working calls, exactly then.
  ghost predicate FollowedUp(s: Store, flow: Flow, version: string, input: Input)
    requires s.ironic.Some?
  {
    var again := flow.Stop? && (flow.requeue || flow.failed);
    && (OthersWrote(s, flow.store) ==> again)
    && (WorkloadWrote(s, flow.store) ==> again || HeldUp(s, version))
    && (Working(input) && WorkloadWrote(s, flow.store) ==> (again <==> !HeldUp(s, version)))
  }

  // The object with what it takes to deploy it, other things being equal.
  ghost predicate SameTargets(s: Store, t: Store) {
    && t.jobs == s.jobs && t.deployment == s.deployment && t.daemonSet == s.daemonSet
    && t.service == s.service && t.ingress == s.ingress && t.monitor == s.monitor
  }

  lemma NothingToFollowUp(s: Store, flow: Flow, version: string, input: Input)
    requires s.ironic.Some? && SameTargets(s, flow.store)
    ensures FollowedUp(s, flow, version, input)
  {
    hide HeldUp, Working;
  }

  lemma DeployedFollowsUp(s: Store, version: string, input: Input)
    requires s.ironic.Some?
    ensures FollowedUp(s, DeployedAndReported(s, version, input), version, input)
  {
    hide EnsureIronic, HeldUp;
    assert Working(input) ==> !input.faults(WriteOutcome).Failed();
    hide Working;
    DeployFollowsUp(s, version, input);
  }

  lemma InstallFollowsUp(s: Store, v: ParsedVersion, input: Input)
    requires s.ironic.Some?
    ensures FollowedUp(s, Install(s, v, input), v.ToString(), input)
  {
    hide EnsureNetworkingSwitchSecrets, EnsureIronicNetworking, DeployedAndReported, Install, Complain;
    hide Version.ToString, HeldUp, Working;
    var version := v.ToString();
    var (secrets, switches) := EnsureNetworkingSwitchSecrets(s.secrets, s.ironic.value, input);
    var t := s.(secrets := secrets);
    if switches.Problem? || VersionTooOldFor(s.ironic.value.spec, v) {
      RefusedTargets(s, v, input);
      NothingToFollowUp(s, Install(s, v, input), version, input);
    } else {
      InstallInSteps(s, v, input);
      NetworkingTargets(t, switches, version, input);
      var stage := EnsureIronicNetworking(t, switches, version, input);
      if stage.Passed? {
        DeployedFollowsUp(stage.store, version, input);
        HeldUpFrame(s, stage.store, version);
      } else {
        NothingToFollowUp(s, Install(s, v, input), version, input);
      }
    }
  }

  lemma RefusedTargets(s: Store, v: ParsedVersion, input: Input)
    requires s.ironic.Some?
    requires VersionTooOldFor(s.ironic.value.spec, v)
             || EnsureNetworkingSwitchSecrets(s.secrets, s.ironic.value, input).1.Problem?
    ensures SameTargets(s, Install(s, v, input).store)
  {
    hide EnsureNetworkingSwitchSecrets, EnsureIronicNetworking, EnsureIronic, UpdateIronicStatus, Complain;
    var t := s.(secrets := EnsureNetworkingSwitchSecrets(s.secrets, s.ironic.value, input).0);
    ComplainIsSilent(t, BadLink(SwitchConfig), input);
    ComplainIsSilent(t, VersionTooOld, input);
  }

  lemma NetworkingTargets(s: Store, switches: Switches, version: string, input: Input)
    requires s.ironic.Some?
    ensures var t := EnsureIronicNetworking(s, switches, version, input).store;
      SameTargets(s, t) && t.ironic == s.ironic
  {
    hide RemoveNetworkingResources;
  }

  lemma WritesAreFollowedUp(s: Store, v: ParsedVersion, input: Input)
    requires s.ironic.Some? && EffectiveVersion(s.ironic.value.spec, input.defaultVersion) == Some(v)
    ensures FollowedUp(s, Reconcile(s, input), v.ToString(), input)
  {
    hide CleanUp, Prepare, Install, Complain, EffectiveVersion, FollowedUp, Version.ToString;
    if input.faults(GetIronic).Failed() {
      NothingToFollowUp(s, Reconcile(s, input), v.ToString(), input);
    } else if s.ironic.value.deleting {
      CleanUpIsQuiet(s, input);
      NothingToFollowUp(s, Reconcile(s, input), v.ToString(), input);
    } else if !s.ironic.value.finalizer {
      NothingToFollowUp(s, Reconcile(s, input), v.ToString(), input);
    } else {
      PreparedQuietly(s, v, input);
      var u := Prepare(s, v, input);
      if u.Go? {
        InstallFollowsUp(u.store, v, input);
        PreparedFollowsUp(s, u.store, Install(u.store, v, input), v, input);
      } else {
        NothingToFollowUp(s, Reconcile(s, input), v.ToString(), input);
      }
    }
  }

  lemma PreparedFollowsUp(s: Store, u: Store, flow: Flow, v: ParsedVersion, input: Input)
    requires s.ironic.Some? && Quiet(s, u) && u.ironic.value.spec == s.ironic.value.spec
    requires FollowedUp(u, flow, v.ToString(), input)
    ensures FollowedUp(s, flow, v.ToString(), input)
  {
    assert ServiceAsked(u, v.ToString()) == ServiceAsked(s, v.ToString());
    assert IngressAsked(u, v.ToString()) == IngressAsked(s, v.ToString());
    hide Working, Complete, ServiceAsked, IngressAsked;
  }
}
