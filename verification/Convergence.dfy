// Convergence: with a spec that stays as it is, valid linked objects, working
// API calls, jobs that finish and workloads that become ready, repeated
// reconciles reach a state that they leave alone, with the requested version
// installed and Ready=True. A measure counts what is still to be written.
module Convergence {
  import opened Options
  import opened Htpasswd
  import opened Cluster
  import opened Workloads
  import opened SecretManager
  import opened SwitchSecrets
  import opened Networking
  import opened Upgrades
  import opened Deploy
  import opened Controller

  /* ---- What the cluster does in its own time ---- */

  // Jobs are done, and the service has its addresses.
  ghost predicate AccessSettled(s: Store) {
    && (forall key | key in s.jobs :: JobProgress(s.jobs[key].conditions, key.phase).Ready?)
    && (s.service.Some? ==> s.service.value.clusterIPs)
  }

  ghost predicate NetworkSettled(s: Store) {
    s.networkDeployment.Some? ==> s.networkDeployment.value.readyReplicas >= 1
  }

  // So are the workloads.
  ghost predicate Settled(s: Store) {
    && AccessSettled(s)
    && (s.deployment.Some? ==> DeploymentProgress(s.deployment.value).Ready?)
    && (s.daemonSet.Some? ==> DaemonSetProgress(s.daemonSet.value).Ready?)
  }

  ghost predicate Working(input: Input) {
    forall call :: input.faults(call).Acked?
  }

  /* ---- What is still to be written for the deployment ---- */

  function Flag(b: bool): (n: nat)
    ensures n <= 1
  {
    if b then 1 else 0
  }

  function JobToWrite(s: Store, phase: JobPhase, version: string): (n: nat)
    requires s.ironic.Some?
    ensures n <= 1
  {
    var key := UpgradeJob(s.ironic.value, phase, version);
    Flag(UpgradeJobRequired(s.ironic.value, version) && key !in s.jobs)
  }

  // No job of an earlier attempt is in the way: the server would refuse to
  // change its template.
  ghost predicate JobsCurrent(s: Store, version: string)
    requires s.ironic.Some?
  {
    forall phase ::
      var key := UpgradeJob(s.ironic.value, phase, version);
      UpgradeJobRequired(s.ironic.value, version) && key in s.jobs ==>
        s.jobs[key].template == JobTemplate(version, s.ironic.value.spec.jobSettings)
  }

  function OtherToRemove(s: Store): (n: nat)
    requires s.ironic.Some?
    ensures n <= 1
  {
    Flag(if s.ironic.value.spec.highAvailability then s.deployment.Some? else s.daemonSet.Some?)
  }

  function WorkloadToWrite(s: Store, version: string): (n: nat)
    requires s.ironic.Some?
    ensures n <= 1
  {
    var template := IronicTemplate(s, version);
    Flag(if s.ironic.value.spec.highAvailability then !(s.daemonSet.Some? && s.daemonSet.value.template == template)
         else !(s.deployment.Some? && s.deployment.value.template == template))
  }

  function ServiceToWrite(s: Store, version: string): (n: nat)
    requires s.ironic.Some?
    ensures n <= 1
  {
    Flag(s.service != Some(DesiredService(s.service, s.ironic.value.spec, version)))
  }

  function IngressToWrite(s: Store, version: string): (n: nat)
    requires s.ironic.Some?
    ensures n <= 1
  {
    var spec := s.ironic.value.spec;
    Flag(spec.ingress.Some? && s.ingress != Some(DesiredIngress(spec, version)))
  }

  function MonitorToWrite(s: Store): (n: nat)
    requires s.ironic.Some?
    ensures n <= 1
  {
    Flag(s.monitor != s.ironic.value.spec.Monitored())
  }

  function AccessToWrite(s: Store, version: string): (n: nat)
    requires s.ironic.Some?
    ensures n <= 4
  {
    ServiceToWrite(s, version) + IngressToWrite(s, version) + JobToWrite(s, Post, version) + MonitorToWrite(s)
  }

  function DeployToWrite(s: Store, version: string): (n: nat)
    requires s.ironic.Some?
    ensures n <= 7
  {
    JobToWrite(s, Pre, version) + OtherToRemove(s) + WorkloadToWrite(s, version) + AccessToWrite(s, version)
  }

  /* ---- One phase at a time: it writes what is missing, or passes ---- */

  // The store with at most the journal changed.
  ghost predicate Unchanged(s: Store, t: Store) {
    t == s.(journal := t.journal)
  }

  lemma JobConverges(s: Store, phase: JobPhase, version: string, input: Input)
    requires s.ironic.Some? && Working(input) && JobsCurrent(s, version)
    ensures var stage := EnsureUpgradeJob(s, phase, version, input);
      && JobsCurrent(stage.store, version)
      && stage.store == s.(jobs := stage.store.jobs, journal := stage.store.journal)
      && JobToWrite(stage.store, phase, version) == 0
      && (forall other | other != phase :: JobToWrite(stage.store, other, version) == JobToWrite(s, other, version))
      && (stage.Passed? ==> JobToWrite(s, phase, version) == 0)
      && (AccessSettled(s) && JobToWrite(s, phase, version) == 0 ==> stage.Passed?)
      && (stage.Held? ==> !stage.progress.Transient? && (AccessSettled(s) ==> stage.progress.Updating?))
      && (stage.Passed? ==>
            && Unchanged(s, stage.store)
            && (!UpgradeJobRequired(s.ironic.value, version) ==> stage.store == s))
  {
    JobIsNeverTransient(if UpgradeJob(s.ironic.value, phase, version) in s.jobs
                        then s.jobs[UpgradeJob(s.ironic.value, phase, version)].conditions else [], phase);
  }

  lemma {:induction false} JobIsNeverTransient(conditions: seq<JobCondition>, phase: JobPhase)
    ensures !JobProgress(conditions, phase).Transient?
  {
    if |conditions| > 0 {
      JobIsNeverTransient(conditions[1..], phase);
    }
  }

  lemma ServiceConverges(s: Store, version: string, input: Input)
    requires s.ironic.Some? && Working(input)
    ensures var stage := EnsureService(s, version, input);
      && stage.store == s.(service := stage.store.service)
      && ServiceToWrite(stage.store, version) == 0
      && (stage.Passed? ==> stage.store == s && ServiceToWrite(s, version) == 0)
      && (AccessSettled(s) && ServiceToWrite(s, version) == 0 ==> stage.Passed?)
      && (stage.Held? ==> !stage.progress.Transient? && (AccessSettled(s) ==> stage.progress.Updating?))
  {
  }

  lemma IngressConverges(s: Store, version: string, input: Input)
    requires s.ironic.Some? && Working(input)
    ensures var stage := EnsureIngress(s, version, input);
      && stage.store == s.(ingress := stage.store.ingress)
      && IngressToWrite(stage.store, version) == 0
      && (if IngressToWrite(s, version) == 0 then stage == Passed(s) else stage.Held? && stage.progress.Updating?)
  {
  }

  lemma MonitorConverges(s: Store, input: Input)
    requires s.ironic.Some? && Working(input)
    ensures var stage := EnsureMonitor(s, input);
      && stage.store == s.(monitor := stage.store.monitor)
      && MonitorToWrite(stage.store) == 0
      && (MonitorToWrite(s) == 0 ==> stage == Passed(s))
      && (stage.Held? ==> stage.progress.Updating?)
  {
  }

  lemma WorkloadConverges(s: Store, version: string, input: Input)
    requires s.ironic.Some? && Working(input)
    ensures var stage := RemoveOtherWorkload(s, input);
      && stage.Passed?
      && (var (t, progress) := EnsureWorkload(stage.store, version, input);
          && t == s.(deployment := t.deployment, daemonSet := t.daemonSet, journal := t.journal)
          && OtherToRemove(t) == 0 && WorkloadToWrite(t, version) == 0
          && (OtherToRemove(s) == 0 && WorkloadToWrite(s, version) == 0 ==> t == s)
          && (Settled(s) ==>
                && (progress.Ready? || progress.Updating?)
                && (OtherToRemove(s) == 0 && WorkloadToWrite(s, version) == 0 ==> progress.Ready?)))
  {
    hide DeploymentProgress, DaemonSetProgress, AccessSettled;
    assert input.faults(DeleteOtherWorkload).Acked? && input.faults(GetWorkload).Acked?
      && input.faults(WriteWorkload).Acked?;
    hide Working;
    var stage := RemoveOtherWorkload(s, input);
    if s.ironic.value.spec.highAvailability {
      assert stage.store == s.(deployment := None);
      DaemonSetConverges(stage.store, version, input);
      assert OtherToRemove(s) == 0 ==> stage.store == s;
    } else {
      assert stage.store == s.(daemonSet := None);
      DeploymentConverges(stage.store, version, input);
      assert OtherToRemove(s) == 0 ==> stage.store == s;
    }
  }

  lemma DaemonSetConverges(s: Store, version: string, input: Input)
    requires s.ironic.Some? && s.ironic.value.spec.highAvailability
    requires input.faults(GetWorkload).Acked? && input.faults(WriteWorkload).Acked?
    ensures var (t, progress) := EnsureWorkload(s, version, input);
      && t == s.(daemonSet := t.daemonSet, journal := t.journal)
      && WorkloadToWrite(t, version) == 0
      && (if WorkloadToWrite(s, version) == 0 then t == s && progress == DaemonSetProgress(s.daemonSet.value)
          else progress.Updating?)
  {
    hide DaemonSetProgress;
  }

  lemma DeploymentConverges(s: Store, version: string, input: Input)
    requires s.ironic.Some? && !s.ironic.value.spec.highAvailability
    requires input.faults(GetWorkload).Acked? && input.faults(WriteWorkload).Acked?
    ensures var (t, progress) := EnsureWorkload(s, version, input);
      && t == s.(deployment := t.deployment, journal := t.journal)
      && WorkloadToWrite(t, version) == 0
      && (if WorkloadToWrite(s, version) == 0 then t == s && progress == DeploymentProgress(s.deployment.value)
          else progress.Updating?)
  {
    hide DeploymentProgress;
  }

  /* ---- Deploying ---- */

  // What one pass over the phases from a to b achieves: something less to
  // write, or everything passed with nothing written.
  ghost predicate Fewer(before: nat, after: nat, idle: bool) {
    after < before || (before == 0 && after == 0 && idle)
  }

  // Each counter looks at one part of the store.
  lemma CountersApart(s: Store, t: Store, version: string)
    requires s.ironic.Some? && t.ironic == s.ironic
    ensures t.jobs == s.jobs ==> JobsCurrent(t, version) == JobsCurrent(s, version)
    ensures t.service == s.service ==> ServiceToWrite(t, version) == ServiceToWrite(s, version)
    ensures t.ingress == s.ingress ==> IngressToWrite(t, version) == IngressToWrite(s, version)
    ensures t.monitor == s.monitor ==> MonitorToWrite(t) == MonitorToWrite(s)
    ensures t.jobs == s.jobs ==> forall phase :: JobToWrite(t, phase, version) == JobToWrite(s, phase, version)
    ensures t.deployment == s.deployment && t.daemonSet == s.daemonSet && t.secrets == s.secrets ==>
      OtherToRemove(t) == OtherToRemove(s) && WorkloadToWrite(t, version) == WorkloadToWrite(s, version)
  {
  }

  // What the phases after the workload achieve.
  ghost predicate AccessGoes(s: Store, stage: Stage, version: string)
    requires s.ironic.Some? && stage.store.ironic.Some?
  {
    var t := stage.store;
    && t == s.(service := t.service, ingress := t.ingress, jobs := t.jobs, monitor := t.monitor, journal := t.journal)
    && (stage.Held? ==> !stage.progress.Transient? && (AccessSettled(s) ==> stage.progress.Updating?))
    && JobsCurrent(t, version)
    && JobToWrite(t, Pre, version) == JobToWrite(s, Pre, version)
    && AccessToWrite(t, version) <= AccessToWrite(s, version)
    && (AccessSettled(s) ==>
          Fewer(AccessToWrite(s, version), AccessToWrite(t, version),
                stage.Passed? && Unchanged(s, t) && (!UpgradeJobRequired(s.ironic.value, version) ==> t == s)))
  }

  lemma AccessConverges(s: Store, version: string, input: Input)
    requires s.ironic.Some? && Working(input) && JobsCurrent(s, version)
    ensures AccessGoes(s, EnsureAccess(s, version, input), version)
  {
    hide EnsureService, EnsureIngress, EnsureUpgradeJob, EnsureMonitor, AccessSettled, Working;
    hide ServiceToWrite, IngressToWrite, JobToWrite, MonitorToWrite, JobsCurrent;
    ServiceConverges(s, version, input);
    IngressConverges(s, version, input);
    var service, ingress := EnsureService(s, version, input), EnsureIngress(s, version, input);
    if service.Held? {
      assert EnsureAccess(s, version, input) == service;
      CountersApart(s, service.store, version);
    } else if ingress.Held? {
      assert EnsureAccess(s, version, input) == ingress;
      CountersApart(s, ingress.store, version);
    } else {
      LateAccessConverges(s, version, input);
    }
  }

  // The second half, with service and ingress in place.
  lemma LateAccessConverges(s: Store, version: string, input: Input)
    requires s.ironic.Some? && Working(input) && JobsCurrent(s, version)
    requires EnsureService(s, version, input) == Passed(s) && EnsureIngress(s, version, input) == Passed(s)
    requires ServiceToWrite(s, version) == 0 && IngressToWrite(s, version) == 0
    ensures AccessGoes(s, EnsureAccess(s, version, input), version)
  {
    hide EnsureService, EnsureIngress, EnsureUpgradeJob, EnsureMonitor, AccessSettled, Working;
    hide ServiceToWrite, IngressToWrite, JobToWrite, MonitorToWrite, JobsCurrent;
    JobConverges(s, Post, version, input);
    var job := EnsureUpgradeJob(s, Post, version, input);
    CountersApart(s, job.store, version);
    if job.Held? {
      assert EnsureAccess(s, version, input) == job;
    } else {
      MonitorConverges(job.store, input);
      var monitor := EnsureMonitor(job.store, input);
      assert EnsureAccess(s, version, input) == monitor;
      CountersApart(job.store, monitor.store, version);
    }
  }

  // Having passed, there is nothing left to write.
  lemma AccessPassed(s: Store, version: string, input: Input)
    requires s.ironic.Some? && Working(input) && JobsCurrent(s, version)
    ensures var stage := EnsureAccess(s, version, input);
      stage.Passed? ==> AccessToWrite(stage.store, version) == 0
  {
    hide EnsureService, EnsureIngress, EnsureUpgradeJob, EnsureMonitor, AccessSettled, Working;
    hide ServiceToWrite, IngressToWrite, JobToWrite, MonitorToWrite, JobsCurrent;
    ServiceConverges(s, version, input);
    IngressConverges(s, version, input);
    JobConverges(s, Post, version, input);
    var job := EnsureUpgradeJob(s, Post, version, input);
    CountersApart(s, job.store, version);
    MonitorConverges(job.store, input);
    CountersApart(job.store, EnsureMonitor(job.store, input).store, version);
  }

  lemma DeployConverges(s: Store, version: string, input: Input)
    requires s.ironic.Some? && Working(input) && input.valid(s.ironic.value.spec) && JobsCurrent(s, version)
    ensures var (t, progress) := EnsureIronic(s, version, input);
      && JobsCurrent(t, version)
      && t == s.(deployment := t.deployment, daemonSet := t.daemonSet, service := t.service, ingress := t.ingress,
                 jobs := t.jobs, monitor := t.monitor, journal := t.journal)
      && DeployToWrite(t, version) <= DeployToWrite(s, version)
      && (Settled(s) ==>
            && (progress.Updating? || (progress.Ready? && DeployToWrite(t, version) == 0))
            && Fewer(DeployToWrite(s, version), DeployToWrite(t, version),
                     progress.Ready? && Unchanged(s, t) && (!UpgradeJobRequired(s.ironic.value, version) ==> t == s)))
  {
    hide EnsureUpgradeJob, EnsureWorkload, RemoveOtherWorkload, EnsureAccess, AccessToWrite, Working;
    hide Settled, AccessSettled, JobToWrite, OtherToRemove, WorkloadToWrite, JobsCurrent;
    JobConverges(s, Pre, version, input);
    var job := EnsureUpgradeJob(s, Pre, version, input);
    if job.Held? {
      assert EnsureIronic(s, version, input) == (job.store, job.progress);
      CountersApart(s, job.store, version);
      AccessUntouched(s, job.store, version);
      SettledParts(s, job.store);
    } else {
      WorkloadConverges(job.store, version, input);
      var alone := RemoveOtherWorkload(job.store, input);
      var (w, progress) := EnsureWorkload(alone.store, version, input);
      SettledParts(s, job.store);
      SettledParts(job.store, w);
      CountersApart(s, job.store, version);
      CountersApart(s, w, version);
      AccessUntouched(s, w, version);
      if progress.Fatal? || progress.Transient? {
        assert EnsureIronic(s, version, input) == (w, progress);
      } else {
        AccessConverges(w, version, input);
        var access := EnsureAccess(w, version, input);
        AccessPassed(w, version, input);
        CountersApart(w, access.store, version);
        assert EnsureIronic(s, version, input) == (access.store, if access.Held? then access.progress else progress);
      }
    }
  }

  lemma SettledParts(s: Store, t: Store)
    ensures Settled(s) ==> AccessSettled(s)
    ensures t.jobs == s.jobs && t.service == s.service ==> AccessSettled(t) == AccessSettled(s)
    ensures Unchanged(s, t) ==> Settled(t) == Settled(s)
  {
    hide DeploymentProgress, DaemonSetProgress, JobProgress;
  }

  lemma AccessUntouched(s: Store, t: Store, version: string)
    requires s.ironic.Some? && t.ironic == s.ironic
    requires t.service == s.service && t.ingress == s.ingress && t.monitor == s.monitor
    requires JobToWrite(t, Post, version) == JobToWrite(s, Post, version)
    ensures AccessToWrite(t, version) == AccessToWrite(s, version)
  {
  }

  /* ---- The networking service ---- */

  // The cache is in sync.
  ghost predicate CacheComplete(s: Store, input: Input) {
    forall name | name in s.secrets :: name in input.cache
  }

  // Switch secrets that the user brings are there, and labelled.
  ghost predicate SwitchSecretOk(s: Store, role: Role)
    requires s.ironic.Some? && (role.SwitchConfig? || role.SwitchCredentials?)
  {
    var name := SwitchSecretName(s.ironic.value, role);
    s.ironic.value.spec.NetworkingEnabled() ==>
      (name in s.secrets ==> s.secrets[name].environment) && (CustomName(s.ironic.value, role) ==> name in s.secrets)
  }

  function SwitchToWrite(s: Store, role: Role): (n: nat)
    requires s.ironic.Some? && (role.SwitchConfig? || role.SwitchCredentials?)
    ensures n <= 1
  {
    var name := SwitchSecretName(s.ironic.value, role);
    Flag(if s.ironic.value.spec.NetworkingEnabled() then name !in s.secrets
         else name in s.secrets && s.secrets[name].environment && s.secrets[name].managed)
  }

  function SwitchesToWrite(s: Store): (n: nat)
    requires s.ironic.Some?
    ensures n <= 2
  {
    SwitchToWrite(s, SwitchConfig) + SwitchToWrite(s, SwitchCredentials)
  }

  function DataOf(s: Store, role: Role): Data
    requires s.ironic.Some? && (role.SwitchConfig? || role.SwitchCredentials?)
  {
    var name := SwitchSecretName(s.ironic.value, role);
    if name in s.secrets then s.secrets[name].data else map[]
  }

  function NetworkToWrite(s: Store, version: string): (n: nat)
    requires s.ironic.Some?
    ensures n <= 2
  {
    var spec := s.ironic.value.spec;
    if spec.NetworkingEnabled() then
      var template := NetworkTemplate(version, spec, Contents(s.secrets, spec.certificate),
                                      DataOf(s, SwitchConfig), DataOf(s, SwitchCredentials));
      Flag(!(s.networkDeployment.Some? && s.networkDeployment.value.template == template)) + Flag(!s.networkService)
    else Flag(s.networkDeployment.Some?) + Flag(s.networkService)
  }

  lemma SwitchEnsured(secrets: Secrets, s: Store, role: Role, input: Input)
    requires s.ironic.Some? && Working(input) && (role.SwitchConfig? || role.SwitchCredentials?)
    requires s.secrets == secrets && SwitchSecretOk(s, role) && s.ironic.value.spec.NetworkingEnabled()
    ensures var (after, failed) := EnsureSwitchSecret(secrets, s.ironic.value, role, input);
      var name := SwitchSecretName(s.ironic.value, role);
      && !failed
      && after == (if name in secrets then secrets else secrets[name := NewSwitchSecret(s.ironic.value, role)])
      && name in after && after[name].environment
  {
  }

  lemma AcquireWorks(secrets: Secrets, name: string, role: Role, input: Input)
    requires Working(input) && name in secrets && secrets[name].environment
    ensures Acquire(secrets, name, None, role, input) == (secrets, Acquired(secrets[name]))
  {
  }

  lemma SwitchesEnsured(s: Store, input: Input)
    requires s.ironic.Some? && Working(input) && s.ironic.value.spec.NetworkingEnabled()
    requires SwitchSecretOk(s, SwitchConfig) && SwitchSecretOk(s, SwitchCredentials)
    ensures var (after, result) := EnsureNetworkingSwitchSecrets(s.secrets, s.ironic.value, input);
      var t := s.(secrets := after);
      && result.Provided?
      && result.config.data == DataOf(t, SwitchConfig) && result.credentials.data == DataOf(t, SwitchCredentials)
      && SwitchesToWrite(t) == 0 && (SwitchesToWrite(s) == 0 ==> after == s.secrets)
      && forall name | name in s.secrets :: name in after && after[name] == s.secrets[name]
  {
    hide EnsureSwitchSecret, Acquire, Working;
    var ironic := s.ironic.value;
    SwitchEnsured(s.secrets, s, SwitchConfig, input);
    var first := EnsureSwitchSecret(s.secrets, ironic, SwitchConfig, input).0;
    var t := s.(secrets := first);
    AcquireWorks(first, SwitchSecretName(ironic, SwitchConfig), SwitchConfig, input);
    SwitchEnsured(first, t, SwitchCredentials, input);
    var second := EnsureSwitchSecret(first, ironic, SwitchCredentials, input).0;
    AcquireWorks(second, SwitchSecretName(ironic, SwitchCredentials), SwitchCredentials, input);
  }

  lemma SwitchesDeleted(s: Store, input: Input)
    requires s.ironic.Some? && Working(input) && !s.ironic.value.spec.NetworkingEnabled() && CacheComplete(s, input)
    ensures var (after, result) := EnsureNetworkingSwitchSecrets(s.secrets, s.ironic.value, input);
      var t := s.(secrets := after);
      result.Off? && SwitchesToWrite(t) == 0 && (SwitchesToWrite(s) == 0 ==> after == s.secrets)
  {
    var ironic := s.ironic.value;
    var first := EnsureSwitchSecretDeleted(s.secrets, ironic, SwitchConfig, input);
    var second := EnsureSwitchSecretDeleted(first.0, ironic, SwitchCredentials, input);
    assert !first.1 && !second.1;
  }

  lemma NetworkingConverges(s: Store, switches: Switches, version: string, input: Input)
    requires s.ironic.Some? && Working(input)
    requires s.ironic.value.spec.NetworkingEnabled() ==>
      && switches.Provided?
      && switches.config.data == DataOf(s, SwitchConfig) && switches.credentials.data == DataOf(s, SwitchCredentials)
    ensures var stage := EnsureIronicNetworking(s, switches, version, input);
      && stage.store == s.(networkDeployment := stage.store.networkDeployment,
                           networkService := stage.store.networkService)
      && NetworkToWrite(stage.store, version) == 0
      && (stage.Held? ==> !stage.progress.Transient?)
      && (NetworkToWrite(s, version) == 0 ==> stage.store == s)
      && (NetworkSettled(s) && NetworkToWrite(s, version) == 0 ==> stage.Passed?)
  {
    assert forall call :: !input.faults(call).Failed() && input.faults(call).Applied();
    if !s.ironic.value.spec.NetworkingEnabled() {
      RemovalConverges(s, input);
    }
  }

  lemma RemovalConverges(s: Store, input: Input)
    requires Working(input)
    ensures RemoveNetworkingResources(s, input) == Passed(s.(networkDeployment := None, networkService := false))
  {
    assert forall call :: !input.faults(call).Failed() && input.faults(call).Applied();
  }

  /* ---- From the switch secrets to the status ---- */

  function InstallToWrite(s: Store, version: string): (n: nat)
    requires s.ironic.Some?
    ensures n <= 11
  {
    SwitchesToWrite(s) + NetworkToWrite(s, version) + DeployToWrite(s, version)
  }

  // The status that says that this version is installed and ready.
  ghost predicate Reported(s: Store, version: string)
    requires s.ironic.Some?
  {
    s.ironic.value.status == StatusAfter(s.ironic.value, Ready, version)
  }

  ghost predicate SameSpec(s: Store, t: Store)
    requires s.ironic.Some?
  {
    t.ironic.Some? && t.ironic.value == s.ironic.value.(status := t.ironic.value.status)
  }

  // The same object with another status, and the versions that it may record.
  ghost predicate StatusMoves(s: Store, t: Store, version: string)
    requires s.ironic.Some?
  {
    && SameSpec(s, t)
    && t.ironic.value.status.requested == s.ironic.value.status.requested
    && (|| t.ironic.value.status.installed == s.ironic.value.status.installed
        || t.ironic.value.status.installed == version)
  }

  // Recording a version as installed leaves no more to write.
  lemma ReportingWritesNoMore(s: Store, progress: Progress, version: string, input: Input)
    requires s.ironic.Some?
    ensures var t := UpdateIronicStatus(s, progress, version, input).store;
      && StatusMoves(s, t, version)
      && (JobsCurrent(s, version) ==> JobsCurrent(t, version))
      && t == s.(ironic := t.ironic, journal := t.journal)
      && InstallToWrite(t, version) <= InstallToWrite(s, version)
      && (progress.Updating? ==> UpdateIronicStatus(s, progress, version, input).requeue)
      && (Working(input) && progress.Ready? ==> Reported(t, version))
      && (Reported(s, version) && progress.Ready? ==>
            UpdateIronicStatus(s, progress, version, input) == Stop(s, false, false))
  {
    hide SwitchesToWrite, NetworkToWrite, DeployToWrite, JobsCurrent;
    var t := UpdateIronicStatus(s, progress, version, input).store;
    NetworkUntouched(s, t, version);
    StatusWritesNoMore(s, t, version);
    if JobsCurrent(s, version) {
      JobsStayCurrent(s, t, version);
    }
  }

  lemma JobsStayCurrent(s: Store, t: Store, version: string)
    requires s.ironic.Some? && t.ironic.Some? && t.jobs == s.jobs && JobsCurrent(s, version)
    requires var i, j := s.ironic.value, t.ironic.value;
      && j.spec.database == i.spec.database && j.spec.jobSettings == i.spec.jobSettings
      && (j.status.installed == i.status.installed || j.status.installed == version)
    ensures JobsCurrent(t, version)
  {
    assert t.ironic.value.status.installed == s.ironic.value.status.installed ==>
      forall phase :: UpgradeJob(t.ironic.value, phase, version) == UpgradeJob(s.ironic.value, phase, version);
  }

  lemma StatusWritesNoMore(s: Store, t: Store, version: string)
    requires s.ironic.Some? && StatusMoves(s, t, version) && t == s.(ironic := t.ironic, journal := t.journal)
    ensures DeployToWrite(t, version) <= DeployToWrite(s, version)
  {
    assert JobToWrite(t, Pre, version) <= JobToWrite(s, Pre, version);
    assert JobToWrite(t, Post, version) <= JobToWrite(s, Post, version);
    assert AccessToWrite(t, version) <= AccessToWrite(s, version);
  }

  // The last part of Install.
  function DeployedAndReported(s: Store, version: string, input: Input): Flow
    requires s.ironic.Some?
  {
    var (t, progress) := EnsureIronic(s, version, input);
    if progress.Transient? then Stop(t, false, true) else UpdateIronicStatus(t, progress, version, input)
  }

  // Deploying and reporting, when the networking service is in place.
  lemma DeployAndReport(s: Store, version: string, input: Input)
    requires s.ironic.Some? && Working(input) && input.valid(s.ironic.value.spec) && JobsCurrent(s, version)
    requires SwitchesToWrite(s) == 0 && NetworkToWrite(s, version) == 0
    ensures var flow := DeployedAndReported(s, version, input);
      var t := flow.store;
      && JobsCurrent(t, version)
      && StatusMoves(s, t, version) && t.configMaps == s.configMaps && t.secrets == s.secrets
      && InstallToWrite(t, version) <= DeployToWrite(s, version)
      && (Settled(s) ==>
            && (flow.requeue || (InstallToWrite(t, version) == 0 && Reported(t, version)))
            && Fewer(DeployToWrite(s, version), InstallToWrite(t, version),
                     Reported(t, version) && (Reported(s, version) ==> flow == Stop(s, false, false))))
  {
    hide EnsureIronic, UpdateIronicStatus, SwitchesToWrite, NetworkToWrite, DeployToWrite, Working, Settled;
    hide StatusAfter;
    DeployConverges(s, version, input);
    var (w, progress) := EnsureIronic(s, version, input);
    NetworkUntouched(s, w, version);
    ReportingWritesNoMore(w, progress, version, input);
    if Reported(s, version) {
      assert s.ironic.value.status.installed == version by {
        InstalledWhenReported(s, version);
      }
    }
  }

  lemma InstalledWhenReported(s: Store, version: string)
    requires s.ironic.Some? && Reported(s, version)
    ensures s.ironic.value.status.installed == version && s.ironic.value.status.Ready()
  {
  }

  lemma NetworkUntouched(s: Store, t: Store, version: string)
    requires s.ironic.Some? && SameSpec(s, t) && t.secrets == s.secrets
    requires t.networkDeployment == s.networkDeployment && t.networkService == s.networkService
    ensures SwitchesToWrite(t) == SwitchesToWrite(s) && NetworkToWrite(t, version) == NetworkToWrite(s, version)
  {
  }

  lemma DeployUntouched(s: Store, t: Store, version: string)
    requires s.ironic.Some?
    requires t == s.(secrets := t.secrets, networkDeployment := t.networkDeployment, networkService := t.networkService)
    requires IronicTemplate(t, version) == IronicTemplate(s, version)
    ensures DeployToWrite(t, version) == DeployToWrite(s, version)
  {
  }

  // The user's secret behind a name, if there is a name.
  ghost predicate Brought(secrets: Secrets, name: string) {
    name != "" ==> name in secrets && !secrets[name].managed
  }

  // Switch secrets, networking service, deployment and status together.
  lemma InstallConverges(s: Store, v: ParsedVersion, input: Input)
    requires s.ironic.Some? && Working(input) && CacheComplete(s, input) && JobsCurrent(s, v.ToString())
    requires SwitchSecretOk(s, SwitchConfig) && SwitchSecretOk(s, SwitchCredentials)
    requires input.valid(s.ironic.value.spec) && !VersionTooOldFor(s.ironic.value.spec, v)
    requires Brought(s.secrets, s.ironic.value.spec.apiCredentials)
    requires Brought(s.secrets, s.ironic.value.spec.certificate)
    ensures var flow := Install(s, v, input);
      var t := flow.store;
      var version := v.ToString();
      && JobsCurrent(t, version)
      && StatusMoves(s, t, version) && t.configMaps == s.configMaps
      && t.secrets == EnsureNetworkingSwitchSecrets(s.secrets, s.ironic.value, input).0
      && InstallToWrite(t, version) <= InstallToWrite(s, version)
      && (Settled(s) && NetworkSettled(s) ==>
            && (flow.requeue || (InstallToWrite(t, version) == 0 && Reported(t, version)))
            && Fewer(InstallToWrite(s, version), InstallToWrite(t, version),
                     Reported(t, version) && (Reported(s, version) ==> flow == Stop(s, false, false))))
  {
    hide EnsureNetworkingSwitchSecrets, EnsureIronicNetworking, DeployedAndReported, Install;
    hide SwitchesToWrite, NetworkToWrite, DeployToWrite, Working, SwitchSecretOk, CacheComplete, Reported;
    var version := v.ToString();
    var (secrets, switches) := EnsureNetworkingSwitchSecrets(s.secrets, s.ironic.value, input);
    var t := s.(secrets := secrets);
    SwitchesConverge(s, input);
    NetworkingConverges(t, switches, version, input);
    var stage := EnsureIronicNetworking(t, switches, version, input);
    SwitchSecretsRespectTheUser(s.secrets, s.ironic.value, input);
    DeployUntouched(s, stage.store, version);
    SwitchesUntouched(t, stage.store);
    InstallInSteps(s, v, input);
    if stage.Passed? {
      DeployAndReport(stage.store, version, input);
    }
  }

  lemma InstallInSteps(s: Store, v: ParsedVersion, input: Input)
    requires s.ironic.Some? && !VersionTooOldFor(s.ironic.value.spec, v)
    ensures var (secrets, switches) := EnsureNetworkingSwitchSecrets(s.secrets, s.ironic.value, input);
      !switches.Problem? ==>
        var stage := EnsureIronicNetworking(s.(secrets := secrets), switches, v.ToString(), input);
        Install(s, v, input) ==
          if stage.Passed? then DeployedAndReported(stage.store, v.ToString(), input)
          else Stop(stage.store, !stage.progress.Transient?, stage.progress.Transient?)
  {
    hide EnsureNetworkingSwitchSecrets, EnsureIronicNetworking, EnsureIronic, UpdateIronicStatus;
  }

  lemma SwitchesConverge(s: Store, input: Input)
    requires s.ironic.Some? && Working(input) && CacheComplete(s, input)
    requires SwitchSecretOk(s, SwitchConfig) && SwitchSecretOk(s, SwitchCredentials)
    ensures var (after, result) := EnsureNetworkingSwitchSecrets(s.secrets, s.ironic.value, input);
      var t := s.(secrets := after);
      && !result.Problem?
      && (s.ironic.value.spec.NetworkingEnabled() ==>
            && result.Provided?
            && result.config.data == DataOf(t, SwitchConfig) && result.credentials.data == DataOf(t, SwitchCredentials))
      && SwitchesToWrite(t) == 0 && (SwitchesToWrite(s) == 0 ==> t == s)
  {
    hide EnsureNetworkingSwitchSecrets;
    if s.ironic.value.spec.NetworkingEnabled() {
      SwitchesEnsured(s, input);
    } else {
      SwitchesDeleted(s, input);
    }
  }

  lemma SwitchesUntouched(s: Store, t: Store)
    requires s.ironic.Some? && t.ironic == s.ironic && t.secrets == s.secrets
    ensures SwitchesToWrite(t) == SwitchesToWrite(s)
  {
  }
}
