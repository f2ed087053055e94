// No failing call is overlooked: a reconcile that does not fail went as if all
// of its calls had worked.
module Failures {
  import opened Options
  import opened Versions
  import opened Htpasswd
  import opened Cluster
  import opened Workloads
  import opened SecretManager
  import opened SwitchSecrets
  import opened Networking
  import opened Upgrades
  import opened Deploy
  import opened Controller
  import opened Convergence

  // The same input with working calls.
  function Worked(input: Input): (r: Input)
    ensures Working(r) && r == input.(faults := r.faults)
  {
    input.(faults := _ => Acked)
  }

  /* ---- Deploying ---- */

  // A phase that got an answer to each of its calls.
  ghost predicate Answered(stage: Stage) {
    stage.Held? ==> !stage.progress.Transient?
  }

  lemma JobAnswered(s: Store, phase: JobPhase, version: string, input: Input)
    requires s.ironic.Some? && Answered(EnsureUpgradeJob(s, phase, version, input))
    ensures EnsureUpgradeJob(s, phase, version, input) == EnsureUpgradeJob(s, phase, version, Worked(input))
  {
    var key := UpgradeJob(s.ironic.value, phase, version);
    if key in s.jobs {
      JobIsNeverTransient(s.jobs[key].conditions, phase);
    }
    hide JobProgress;
  }

  lemma AccessAnswered(s: Store, version: string, input: Input)
    requires s.ironic.Some? && Answered(EnsureAccess(s, version, input))
    ensures EnsureAccess(s, version, input) == EnsureAccess(s, version, Worked(input))
  {
    var w := Worked(input);
    ServiceAnswered(s, version, input);
    hide EnsureService, EnsureIngress, EnsureUpgradeJob, EnsureMonitor, Worked;
    var service := EnsureService(s, version, input);
    if service.Passed? {
      IngressAnswered(service.store, version, input);
      var ingress := EnsureIngress(service.store, version, input);
      if ingress.Passed? {
        if Answered(EnsureUpgradeJob(ingress.store, Post, version, input)) {
          JobAnswered(ingress.store, Post, version, input);
          var job := EnsureUpgradeJob(ingress.store, Post, version, input);
          if job.Passed? {
            MonitorAnswered(job.store, input);
          }
        }
      }
    }
  }

  lemma ServiceAnswered(s: Store, version: string, input: Input)
    requires s.ironic.Some?
    ensures var stage := EnsureService(s, version, input);
      Answered(stage) ==> stage == EnsureService(s, version, Worked(input))
  {
  }

  lemma IngressAnswered(s: Store, version: string, input: Input)
    requires s.ironic.Some?
    ensures var stage := EnsureIngress(s, version, input);
      Answered(stage) ==> stage == EnsureIngress(s, version, Worked(input))
  {
  }

  lemma MonitorAnswered(s: Store, input: Input)
    requires s.ironic.Some?
    ensures var stage := EnsureMonitor(s, input);
      Answered(stage) ==> stage == EnsureMonitor(s, Worked(input))
  {
  }

  lemma WorkloadAnswered(s: Store, version: string, input: Input)
    requires s.ironic.Some?
    ensures var stage := RemoveOtherWorkload(s, input);
      if stage.Passed? then stage == RemoveOtherWorkload(s, Worked(input)) else stage.progress.Transient?
    ensures var (t, progress) := EnsureWorkload(s, version, input);
      !progress.Transient? ==> (t, progress) == EnsureWorkload(s, version, Worked(input))
  {
    hide DeploymentProgress, DaemonSetProgress;
  }

  lemma DeployAnswered(s: Store, version: string, input: Input)
    requires s.ironic.Some? && !EnsureIronic(s, version, input).1.Transient?
    ensures EnsureIronic(s, version, input) == EnsureIronic(s, version, Worked(input))
  {
    hide EnsureUpgradeJob, RemoveOtherWorkload, EnsureWorkload, EnsureAccess, Worked;
    if input.valid(s.ironic.value.spec) {
      var job := EnsureUpgradeJob(s, Pre, version, input);
      JobAnswered(s, Pre, version, input);
      if job.Passed? {
        WorkloadAnswered(job.store, version, input);
        var alone := RemoveOtherWorkload(job.store, input);
        if alone.Passed? {
          WorkloadAnswered(alone.store, version, input);
          var (w, progress) := EnsureWorkload(alone.store, version, input);
          if !progress.Fatal? && !progress.Transient? {
            AccessAnswered(w, version, input);
          }
        }
      }
    }
  }

  /* ---- Networking ---- */

  lemma RemovalAnswered(s: Store, input: Input)
    ensures var stage := RemoveNetworkingResources(s, input);
      stage.Passed? ==> stage == RemoveNetworkingResources(s, Worked(input))
  {
  }

  lemma NetworkingAnswered(s: Store, switches: Switches, version: string, input: Input)
    requires s.ironic.Some?
    ensures var stage := EnsureIronicNetworking(s, switches, version, input);
      Answered(stage) ==> stage == EnsureIronicNetworking(s, switches, version, Worked(input))
  {
    RemovalAnswered(s, input);
    hide RemoveNetworkingResources;
  }

  lemma SwitchAnswered(secrets: Secrets, ironic: Ironic, role: Role, input: Input)
    requires role.SwitchConfig? || role.SwitchCredentials?
    ensures var r := EnsureSwitchSecret(secrets, ironic, role, input);
      !r.1 ==> r == EnsureSwitchSecret(secrets, ironic, role, Worked(input))
    ensures var r := EnsureSwitchSecretDeleted(secrets, ironic, role, input);
      !r.1 ==> r == EnsureSwitchSecretDeleted(secrets, ironic, role, Worked(input))
  {
    hide SwitchSecretName, CustomName;
  }

  lemma AcquireAnswered(secrets: Secrets, name: string, owner: Option<Uid>, role: Role, input: Input)
    ensures var r := Acquire(secrets, name, owner, role, input);
      r.1.Acquired? ==> r == Acquire(secrets, name, owner, role, Worked(input))
  {
  }

  lemma SwitchesAnswered(secrets: Secrets, ironic: Ironic, input: Input)
    ensures var r := EnsureNetworkingSwitchSecrets(secrets, ironic, input);
      !r.1.Problem? ==> r == EnsureNetworkingSwitchSecrets(secrets, ironic, Worked(input))
  {
    hide EnsureSwitchSecret, EnsureSwitchSecretDeleted, Acquire, Worked, SwitchSecretName;
    if ironic.spec.NetworkingEnabled() {
      SwitchAnswered(secrets, ironic, SwitchConfig, input);
      var first := EnsureSwitchSecret(secrets, ironic, SwitchConfig, input).0;
      AcquireAnswered(first, SwitchSecretName(ironic, SwitchConfig), None, SwitchConfig, input);
      SwitchAnswered(first, ironic, SwitchCredentials, input);
      var second := EnsureSwitchSecret(first, ironic, SwitchCredentials, input).0;
      AcquireAnswered(second, SwitchSecretName(ironic, SwitchCredentials), None, SwitchCredentials, input);
    } else {
      SwitchAnswered(secrets, ironic, SwitchConfig, input);
      var first := EnsureSwitchSecretDeleted(secrets, ironic, SwitchConfig, input).0;
      SwitchAnswered(first, ironic, SwitchCredentials, input);
    }
  }

  // A call that fails is not put down to the user: the status stays as it is.
  lemma SwitchCallFails(s: Store, v: ParsedVersion, input: Input)
    requires s.ironic.Some? && input.faults(GetSwitch(SwitchConfig)).Failed()
    ensures Install(s, v, input) == Stop(s, false, true)
  {
    hide SwitchSecretName, EnsureIronicNetworking, EnsureIronic;
  }

  /* ---- Whole reconciles ---- */

  // The flow goes on, or ends without an error.
  ghost predicate Unfailed(flow: Flow) {
    flow.Stop? ==> !flow.failed
  }

  lemma RequestAnswered(s: Store, v: ParsedVersion, input: Input)
    requires s.ironic.Some? && input.faults(WriteNotReady).Acked?
    ensures var flow := RequestVersion(s, v, input);
      Unfailed(flow) ==> flow == RequestVersion(s, v, Worked(input))
  {
    hide ParseVersion, Version.ToString, Version.Compare;
  }

  lemma LinkAnswered(s: Store, role: Role, name: string, input: Input)
    requires s.ironic.Some?
    ensures var flow := LinkSecret(s, role, name, input);
      Unfailed(flow) ==> flow == LinkSecret(s, role, name, Worked(input))
  {
    AcquireAnswered(s.secrets, name, Some(s.ironic.value.uid), role, input);
    hide Acquire, Complain;
  }

  lemma ReferenceAnswered(s: Store, role: Role, reference: Option<Reference>, input: Input)
    requires s.ironic.Some?
    ensures var flow := LinkReference(s, role, reference, input);
      Unfailed(flow) ==> flow == LinkReference(s, role, reference, Worked(input))
  {
    if reference.Some? {
      LinkAnswered(s, role, reference.value.name, input);
      AcquireAnswered(s.configMaps, reference.value.name, None, role, input);
    }
    hide Acquire, Complain, LinkSecret;
  }

  lemma LinksAnswered(s: Store, input: Input)
    requires s.ironic.Some?
    ensures var flow := LinkAll(s, input);
      Unfailed(flow) ==> flow == LinkAll(s, Worked(input))
  {
    hide LinkSecret, LinkReference, Worked;
    var spec := s.ironic.value.spec;
    LinkAnswered(s, Certificate, spec.certificate, input);
    var t := if spec.certificate == "" then Go(s) else LinkSecret(s, Certificate, spec.certificate, input);
    if t.Go? {
      ReferenceAnswered(t.store, BmcCA, spec.bmcCA, input);
      var u := LinkReference(t.store, BmcCA, spec.bmcCA, input);
      if u.Go? {
        ReferenceAnswered(u.store, TrustedCA, spec.trustedCA, input);
      }
    }
  }

  lemma CredentialsAnswered(s: Store, input: Input)
    requires s.ironic.Some?
    ensures var flow := EnsureApiSecret(s, input);
      Unfailed(flow) ==> flow == EnsureApiSecret(s, Worked(input))
  {
    LinkAnswered(s, ApiCredentials, s.ironic.value.spec.apiCredentials, input);
    CreationAnswered(s, input);
    hide LinkSecret, CreateApiSecretObject, Updated, Complain;
  }

  lemma CreationAnswered(s: Store, input: Input)
    requires s.ironic.Some?
    ensures var flow := CreateApiSecretObject(s, input);
      Unfailed(flow) ==> flow == CreateApiSecretObject(s, Worked(input))
  {
    assert GenerateSecret(s.ironic.value, Worked(input)) == GenerateSecret(s.ironic.value, input);
    hide GenerateSecret, Complain;
  }

  lemma PrepareAnswered(s: Store, v: ParsedVersion, input: Input)
    requires s.ironic.Some? && input.faults(WriteNotReady).Acked?
    ensures var flow := Prepare(s, v, input);
      Unfailed(flow) ==> flow == Prepare(s, v, Worked(input))
  {
    hide RequestVersion, EnsureApiSecret, LinkAll, Worked;
    RequestAnswered(s, v, input);
    var t := RequestVersion(s, v, input);
    if t.Go? {
      CredentialsAnswered(t.store, input);
      var u := EnsureApiSecret(t.store, input);
      if u.Go? {
        LinksAnswered(u.store, input);
      }
    }
  }

  lemma InstallAnswered(s: Store, v: ParsedVersion, input: Input)
    requires s.ironic.Some? && input.faults(WriteNotReady).Acked? && !Install(s, v, input).failed
    ensures Install(s, v, input) == Install(s, v, Worked(input))
  {
    SwitchesAnswered(s.secrets, s.ironic.value, input);
    hide EnsureNetworkingSwitchSecrets, EnsureIronicNetworking, EnsureIronic, VersionTooOldFor, Version.ToString;
    var (secrets, switches) := EnsureNetworkingSwitchSecrets(s.secrets, s.ironic.value, input);
    if !switches.Problem? {
      var t := s.(secrets := secrets);
      NetworkingAnswered(t, switches, v.ToString(), input);
      var stage := EnsureIronicNetworking(t, switches, v.ToString(), input);
      if stage.Passed? && !EnsureIronic(stage.store, v.ToString(), input).1.Transient? {
        DeployAnswered(stage.store, v.ToString(), input);
      }
    }
  }

  lemma CleanUpAnswered(s: Store, input: Input)
    requires s.ironic.Some?
    ensures var flow := CleanUp(s, input);
      Unfailed(flow) ==> flow == CleanUp(s, Worked(input))
  {
    RemovalAnswered(s, input);
    hide RemoveNetworkingResources, EnsureSwitchSecretDeleted;
    var removed := RemoveNetworkingResources(s, input);
    if removed.Passed? {
      SwitchAnswered(removed.store.secrets, s.ironic.value, SwitchConfig, input);
      var config := EnsureSwitchSecretDeleted(removed.store.secrets, s.ironic.value, SwitchConfig, input);
      SwitchAnswered(config.0, s.ironic.value, SwitchCredentials, input);
    }
  }

  // Only the failure to report a mistake of the user is let pass.
  lemma NoFailureIsOverlooked(s: Store, input: Input)
    requires input.faults(WriteNotReady).Acked?
    ensures var flow := Reconcile(s, input);
      Unfailed(flow) ==> flow == Reconcile(s, Worked(input))
  {
    hide CleanUp, Prepare, Install, EffectiveVersion, Complain;
    if s.ironic.Some? && Unfailed(Reconcile(s, input)) {
      if s.ironic.value.deleting {
        CleanUpAnswered(s, input);
      } else if s.ironic.value.finalizer {
        var v := EffectiveVersion(s.ironic.value.spec, input.defaultVersion);
        if v.Some? {
          PrepareAnswered(s, v.value, input);
          var u := Prepare(s, v.value, input);
          if u.Go? {
            InstallAnswered(u.store, v.value, input);
          }
        }
      }
    }
  }
}
