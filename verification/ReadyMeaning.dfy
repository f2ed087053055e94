// What Ready=True says about the versions in the status.
module ReadyMeaning {
  import opened Versions
  import opened Cluster
  import opened SwitchSecrets
  import opened Networking
  import opened Deploy
  import opened Controller
  import opened Preparation
  import opened Runs

  ghost predicate ReadyMatches(s: Store) {
    s.ironic.Some? && s.ironic.value.status.Ready() ==>
      s.ironic.value.status.installed == s.ironic.value.status.requested
  }

  // The user asks for the installed version again while another one is still
  // recorded as requested: the branch that records the request is skipped.
  ghost predicate Reverts(s: Store, input: Input) {
    && s.ironic.Some?
    && s.ironic.value.status.installed != s.ironic.value.status.requested
    && var v := EffectiveVersion(s.ironic.value.spec, input.defaultVersion);
       v.Some? && v.value.ToString() == s.ironic.value.status.installed
  }

  // The versions that are recorded when version v gets installed.
  ghost predicate Outcome(before: Status, after: Status, v: Version) {
    && after.installed == v.ToString()
    && after.requested == if v.ToString() == before.installed then before.requested else v.ToString()
  }

  lemma InstallOutcome(s: Store, v: ParsedVersion, input: Input)
    requires s.ironic.Some?
    ensures var t := Install(s, v, input).store;
      && t.ironic.Some?
      && (var before, after := s.ironic.value.status, t.ironic.value.status;
          || after == before
          || (!after.Ready() && after.installed == before.installed)
          || (after.Ready() && after.installed == v.ToString() && after.requested == before.requested))
  {
    hide EnsureNetworkingSwitchSecrets, EnsureIronicNetworking, EnsureIronic, Complain;
    var (secrets, switches) := EnsureNetworkingSwitchSecrets(s.secrets, s.ironic.value, input);
    ComplainIsSilent(s.(secrets := secrets), BadLink(SwitchConfig), input);
    ComplainIsSilent(s.(secrets := secrets), VersionTooOld, input);
  }

  // A reconcile leaves the status alone, or reports it as not ready with the
  // same version installed, or as ready with the version that was asked for.
  lemma ReconcileOutcome(s: Store, input: Input)
    requires s.ironic.Some?
    ensures var t := Reconcile(s, input).store;
      && t.ironic.Some?
      && (var before, after := s.ironic.value.status, t.ironic.value.status;
          var v := EffectiveVersion(s.ironic.value.spec, input.defaultVersion);
          || after == before
          || (!after.Ready() && after.installed == before.installed)
          || (after.Ready() && v.Some? && Outcome(before, after, v.value)))
  {
    hide CleanUp, Prepare, Install, EffectiveVersion, Complain;
    if s.ironic.value.deleting {
      CleanUpIsQuiet(s, input);
    } else if s.ironic.value.finalizer {
      ComplainIsSilent(s, BadVersion, input);
      var v := EffectiveVersion(s.ironic.value.spec, input.defaultVersion);
      if v.Some? {
        PreparedQuietly(s, v.value, input);
        var u := Prepare(s, v.value, input);
        if u.Go? {
          InstallOutcome(u.store, v.value, input);
          RequestOutcome(s, v.value, input);
        }
      }
    }
  }

  lemma RequestOutcome(s: Store, v: ParsedVersion, input: Input)
    requires s.ironic.Some? && RequestVersion(s, v, input).Go?
    ensures var before, after := s.ironic.value.status, RequestVersion(s, v, input).store.ironic.value.status;
      && after.installed == before.installed
      && after.requested == if v.ToString() == before.installed then before.requested else v.ToString()
  {
    hide ParseVersion, Complain;
  }

  // Starting from a status that means what it says, one reconcile breaks it
  // exactly when it finishes for a request that goes back to the installed
  // version before the recorded one was installed.
  lemma ReadyMatchesUnlessReverted(s: Store, input: Input)
    requires ReadyMatches(s)
    ensures var t := Reconcile(s, input).store;
      !ReadyMatches(t) <==> Reverts(s, input) && t.ironic.Some? && t.ironic.value.status.Ready()
  {
    hide HandleIronic, EffectiveVersion;
    if s.ironic.Some? {
      ReconcileOutcome(s, input);
    }
  }

  // Hence in a run whose requests never go back, Ready=True always means that
  // the requested version is installed.
  lemma {:induction false} ReadyMeansInstalled(states: seq<Store>, moves: seq<Move>, n: nat)
    requires Run(states, moves) && n <= |moves|
    requires forall i | 0 <= i < n && moves[i].Reconciled? :: !Reverts(states[i], moves[i].input)
    ensures ReadyMatches(states[n])
  {
    hide Reconcile, EffectiveVersion;
    if n > 0 {
      ReadyMeansInstalled(states, moves, n - 1);
      assert Next(states[n - 1], moves[n - 1], states[n]);
      if moves[n - 1].Reconciled? {
        ReadyMatchesUnlessReverted(states[n - 1], moves[n - 1].input);
      }
    }
  }
}
