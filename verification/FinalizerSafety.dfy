// The finalizer covers the networking service, and the two kinds of workload
// never exist together, in every run and whichever calls fail.
module FinalizerSafety {
  import opened Cluster
  import opened SwitchSecrets
  import opened Networking
  import opened Upgrades
  import opened Deploy
  import opened Controller
  import opened Preparation
  import opened Ordering
  import opened Runs

  ghost predicate Finalizing(s: Store) {
    s.ironic.Some? && s.ironic.value.finalizer
  }

  ghost predicate Covered(s: Store) {
    s.networkDeployment.Some? || s.networkService ==> Finalizing(s)
  }

  ghost predicate Alone(s: Store) {
    s.deployment.None? || s.daemonSet.None?
  }

  /* ---- One reconcile ---- */

  lemma RemoveOtherKeepsAlone(s: Store, version: string, input: Input)
    requires s.ironic.Some? && Alone(s)
    ensures Alone(RemoveOtherWorkload(s, input).store)
    ensures RemoveOtherWorkload(s, input).Passed? ==>
              Alone(EnsureWorkload(RemoveOtherWorkload(s, input).store, version, input).0)
  {
  }

  lemma DeployKeepsAlone(s: Store, version: string, input: Input)
    requires s.ironic.Some? && Alone(s)
    ensures Alone(EnsureIronic(s, version, input).0)
  {
    hide EnsureUpgradeJob, EnsureWorkload, EnsureAccess, RemoveOtherWorkload;
    var events := JobStep(s, Pre, version, input);
    var job := EnsureUpgradeJob(s, Pre, version, input);
    if job.Passed? {
      RemoveOtherKeepsAlone(job.store, version, input);
      var alone := RemoveOtherWorkload(job.store, input);
      if alone.Passed? {
        var w := EnsureWorkload(alone.store, version, input).0;
        events := AccessStep(w, version, input);
      }
    }
  }

  lemma NetworkingKeeps(s: Store, switches: Switches, version: string, input: Input)
    requires s.ironic.Some?
    ensures var t := EnsureIronicNetworking(s, switches, version, input).store;
      t == s.(networkDeployment := t.networkDeployment, networkService := t.networkService)
  {
    hide RemoveNetworkingResources;
  }

  lemma InstallKeeps(s: Store, v: ParsedVersion, input: Input)
    requires Finalizing(s) && Alone(s)
    ensures var t := Install(s, v, input).store; Finalizing(t) && Alone(t)
  {
    hide EnsureNetworkingSwitchSecrets, EnsureIronicNetworking, EnsureIronic, Complain;
    var (secrets, switches) := EnsureNetworkingSwitchSecrets(s.secrets, s.ironic.value, input);
    var t := s.(secrets := secrets);
    ComplainIsSilent(t, BadLink(SwitchConfig), input);
    ComplainIsSilent(t, VersionTooOld, input);
    NetworkingKeeps(t, switches, v.ToString(), input);
    var stage := EnsureIronicNetworking(t, switches, v.ToString(), input);
    if stage.Passed? {
      DeployKeepsAlone(stage.store, v.ToString(), input);
    }
  }

  lemma CleanUpKeepsCovered(s: Store, input: Input)
    requires s.ironic.Some? && Covered(s)
    ensures Covered(CleanUp(s, input).store)
  {
    hide EnsureSwitchSecretDeleted;
    RemovalIsComplete(s, input);
  }

  lemma ReconcileKeeps(s: Store, input: Input)
    requires Covered(s) && Alone(s)
    ensures var t := Reconcile(s, input).store; Covered(t) && Alone(t)
  {
    hide CleanUp, Prepare, Install, EffectiveVersion, Complain;
    if s.ironic.Some? {
      if s.ironic.value.deleting {
        CleanUpIsQuiet(s, input);
        CleanUpKeepsCovered(s, input);
      } else if s.ironic.value.finalizer {
        ComplainIsSilent(s, BadVersion, input);
        var v := EffectiveVersion(s.ironic.value.spec, input.defaultVersion);
        if v.Some? {
          PreparedQuietly(s, v.value, input);
          var u := Prepare(s, v.value, input);
          if u.Go? {
            InstallKeeps(u.store, v.value, input);
          }
        }
      }
    }
  }

  // The finalizer disappears only in a reconcile of a deleted object that has
  // removed the networking deployment and service, and exactly the switch
  // secrets that deleting finds.
  lemma FinalizerRemovedLast(s: Store, input: Input)
    requires Finalizing(s)
    ensures var t := Reconcile(s, input).store;
      !Finalizing(t) ==>
        && s.ironic.value.deleting
        && t.networkDeployment.None? && !t.networkService
        && Cleared(s.secrets, t.secrets, s.ironic.value, input)
  {
    hide EnsureSwitchSecretDeleted, RemoveIronicNetworking, Prepare, Install, EffectiveVersion, Complain;
    if s.ironic.value.deleting {
      RemovalIsComplete(s, input);
    } else {
      ComplainIsSilent(s, BadVersion, input);
      var v := EffectiveVersion(s.ironic.value.spec, input.defaultVersion);
      if v.Some? {
        PreparedQuietly(s, v.value, input);
        var u := Prepare(s, v.value, input);
        if u.Go? {
          InstallFinalizing(u.store, v.value, input);
        }
      }
    }
  }

  lemma InstallFinalizing(s: Store, v: ParsedVersion, input: Input)
    requires Finalizing(s)
    ensures Finalizing(Install(s, v, input).store)
  {
    hide EnsureNetworkingSwitchSecrets, EnsureIronicNetworking, EnsureIronic, Complain;
    var (secrets, switches) := EnsureNetworkingSwitchSecrets(s.secrets, s.ironic.value, input);
    ComplainIsSilent(s.(secrets := secrets), BadLink(SwitchConfig), input);
    ComplainIsSilent(s.(secrets := secrets), VersionTooOld, input);
  }

  // So the finalizer does not wait for a managed switch secret that the cache
  // does not show, be it that the cache is behind or that the secret lost its
  // environment label: the object goes, and the secret stays.
  lemma UnseenSecretStays(s: Store, input: Input, name: string)
    requires Finalizing(s) && s.ironic.value.deleting && forall call :: input.faults(call).Acked?
    requires name in s.secrets && (name !in input.cache || !s.secrets[name].environment)
    ensures var t := Reconcile(s, input).store;
      && t.ironic.Some? && !t.ironic.value.finalizer
      && name in t.secrets && t.secrets[name] == s.secrets[name]
  {
    hide EnsureSwitchSecretDeleted, RemoveNetworkingResources;
    assert input.faults(GetIronic).Acked? && input.faults(RemoveFinalizer).Acked?;
    RemovalIsComplete(s, input);
    RemovalWorks(s, input);
  }

  lemma RemovalWorks(s: Store, input: Input)
    requires s.ironic.Some? && forall call :: input.faults(call).Acked?
    ensures RemoveIronicNetworking(s, input).Passed?
  {
    assert forall call :: !input.faults(call).Failed();
  }

  /* ---- Runs ---- */

  lemma {:induction false} CoveredThroughout(states: seq<Store>, moves: seq<Move>, n: nat)
    requires Run(states, moves) && n <= |moves|
    ensures Covered(states[n]) && Alone(states[n])
  {
    hide Reconcile;
    if n > 0 {
      CoveredThroughout(states, moves, n - 1);
      assert Next(states[n - 1], moves[n - 1], states[n]);
      if moves[n - 1].Reconciled? {
        ReconcileKeeps(states[n - 1], moves[n - 1].input);
      }
    }
  }
}
