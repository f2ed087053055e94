// What a reconcile tells the user in the status, and the queue in its result,
// when it cannot go on.
module Reports {
  import opened Options
  import opened Versions
  import opened Htpasswd
  import opened Cluster
  import opened SecretManager
  import opened SwitchSecrets
  import opened Networking
  import opened Controller
  import opened Targets
  import opened Convergence

  // The object reports that it failed; everything else is as before.
  ghost predicate Failure(s: Store, t: Store)
    requires s.ironic.Some?
  {
    && t.ironic.Some?
    && t == s.(ironic := t.ironic, secrets := t.secrets, journal := t.journal)
    && t.ironic.value == s.ironic.value.(status := t.ironic.value.status)
    && var before, after := s.ironic.value.status, t.ironic.value.status;
    && after.installed == before.installed && after.requested == before.requested
    && !after.Ready() && after.condition.Some? && after.condition.value.reason.Failed?
    && after.condition.value.generation == s.ironic.value.generation
  }

  /* ---- Mistakes of the user ---- */

  // A version that cannot be read.
  lemma UnreadableVersion(s: Store, input: Input)
    requires s.ironic.Some? && s.ironic.value.finalizer && !s.ironic.value.deleting
    requires s.ironic.value.spec.version != "" && ParseVersion(s.ironic.value.spec.version).None?
    requires !input.faults(GetIronic).Failed() && input.faults(WriteNotReady).Applied()
    ensures var flow := Reconcile(s, input);
      flow == Stop(flow.store, true, true) && Failure(s, flow.store)
  {
    hide ParseVersion, Prepare, Install;
  }

  // Extra ranges with a version that does not have them.
  lemma TooOldForExtraRanges(s: Store, v: ParsedVersion, input: Input)
    requires s.ironic.Some? && s.ironic.value.spec.extraRanges && !AtMost(VERSION_37_0, v)
    requires input.faults(WriteNotReady).Applied()
    requires !EnsureNetworkingSwitchSecrets(s.secrets, s.ironic.value, input).1.Problem?
    ensures var flow := Install(s, v, input);
      flow == Stop(flow.store, false, false) && Failure(s, flow.store)
  {
    CompareIsTheOrder(v, VERSION_37_0);
    hide EnsureNetworkingSwitchSecrets, EnsureIronicNetworking, AtMost, Version.Compare;
  }

  // Credentials that cannot be used.
  lemma UnusableCredentials(s: Store, name: string, input: Input)
    requires s.ironic.Some? && name in s.secrets && input.faults(WriteNotReady).Applied()
    requires Updated(s.secrets[name].data, input.crypt, input.salt).Refused?
    ensures var flow := UpdateApiSecretObject(s, name, input);
      flow == Stop(flow.store, true, true) && Failure(s, flow.store)
  {
    hide Updated;
  }

  // Generated credentials that cannot be used, or have no name to go by.
  lemma UnusableGenerated(s: Store, input: Input)
    requires s.ironic.Some? && input.faults(WriteNotReady).Applied()
    requires GenerateSecret(s.ironic.value, input).None? || input.faults(CreateApiSecret).Failed()
             || input.freshName in s.secrets
    ensures var flow := CreateApiSecretObject(s, input);
      flow == Stop(flow.store, true, true) && Failure(s, flow.store)
  {
    hide GenerateSecret;
  }

  // A switch secret that is there without its label, or that the user named
  // but did not bring.
  ghost predicate BadSwitch(secrets: Secrets, name: string, chosen: bool) {
    if name in secrets then !secrets[name].environment else chosen
  }

  lemma BadSwitchSecret(s: Store, v: ParsedVersion, input: Input)
    requires s.ironic.Some? && Working(input) && ConfigName(s.ironic.value) != CredentialsName(s.ironic.value)
    requires s.ironic.value.spec.networking.Some? && s.ironic.value.spec.networking.value.enabled
    requires var n := s.ironic.value.spec.networking.value;
      || BadSwitch(s.secrets, ConfigName(s.ironic.value), n.configName != "")
      || BadSwitch(s.secrets, CredentialsName(s.ironic.value), n.credentialsName != "")
    ensures var flow := Install(s, v, input);
      flow == Stop(flow.store, false, true) && Failure(s, flow.store)
  {
    hide EnsureIronicNetworking, VersionTooOldFor;
    SwitchProblem(s.secrets, s.ironic.value, input);
    hide EnsureNetworkingSwitchSecrets, BadSwitch;
    assert input.faults(WriteNotReady).Acked?;
  }

  lemma SwitchProblem(secrets: Secrets, ironic: Ironic, input: Input)
    requires Working(input) && ConfigName(ironic) != CredentialsName(ironic)
    requires ironic.spec.networking.Some? && ironic.spec.networking.value.enabled
    requires var n := ironic.spec.networking.value;
      || BadSwitch(secrets, ConfigName(ironic), n.configName != "")
      || BadSwitch(secrets, CredentialsName(ironic), n.credentialsName != "")
    ensures EnsureNetworkingSwitchSecrets(secrets, ironic, input).1 == Problem(true)
  {
    var n := ironic.spec.networking.value;
    SwitchPasses(secrets, ironic, SwitchConfig, ConfigName(ironic), n.configName != "", input);
    var first := EnsureSwitchSecret(secrets, ironic, SwitchConfig, input).0;
    SwitchPasses(first, ironic, SwitchCredentials, CredentialsName(ironic), n.credentialsName != "", input);
    hide EnsureSwitchSecret, Acquire, Working, SwitchSecretName;
  }

  lemma SwitchPasses(secrets: Secrets, ironic: Ironic, role: Role, name: string, chosen: bool, input: Input)
    requires Working(input) && (role.SwitchConfig? || role.SwitchCredentials?)
    requires name == SwitchSecretName(ironic, role) && chosen == CustomName(ironic, role)
    ensures var (after, failed) := EnsureSwitchSecret(secrets, ironic, role, input);
      var acquired := Acquire(after, name, None, role, input).1;
      && !failed
      && (forall other | other != name :: (other in after <==> other in secrets)
                                          && (other in after ==> after[other] == secrets[other]))
      && (if BadSwitch(secrets, name, chosen) then acquired.NeedsUser() else acquired.Acquired?)
  {
    hide SwitchSecretName, CustomName;
    assert input.faults(GetSwitch(role)).Acked? && input.faults(CreateSwitch(role)).Acked?;
    assert input.faults(ReadCache(role)).Acked? && input.faults(ReadApi(role)).Acked?;
  }

  /* ---- Failures of single writes ---- */

  // Adding the finalizer: it is there unless the reconcile fails, and another
  // one goes on from there.
  lemma FinalizerAdded(s: Store, input: Input)
    requires s.ironic.Some? && !s.ironic.value.finalizer && !s.ironic.value.deleting
    requires !input.faults(GetIronic).Failed()
    ensures var flow := Reconcile(s, input);
      && flow == Stop(flow.store, !input.faults(AddFinalizer).Failed(), input.faults(AddFinalizer).Failed())
      && (!flow.failed ==> flow.store == s.(ironic := Some(s.ironic.value.(finalizer := true))))
  {
  }

  // Cleaning up: the finalizer is gone unless the reconcile fails.
  lemma CleanedUp(s: Store, input: Input)
    requires s.ironic.Some? && s.ironic.value.finalizer && s.ironic.value.deleting
    ensures var flow := Reconcile(s, input);
      && flow.Stop? && flow.store.ironic.Some?
      && (!flow.failed ==> !flow.store.ironic.value.finalizer)
      && (input.faults(GetIronic).Failed() || input.faults(RemoveFinalizer).Failed() ==> flow.failed)
  {
    hide RemoveIronicNetworking;
  }

  // Writing the htpasswd entry: it is up to date unless the reconcile fails,
  // and another one goes on from there.
  lemma HtpasswdWritten(s: Store, name: string, input: Input)
    requires s.ironic.Some? && name in s.secrets && input.crypt.Lawful()
    requires Updated(s.secrets[name].data, input.crypt, input.salt).Changed?
    requires NormalizeSecretValue(s.secrets[name].data[USERNAME]) != ""
    ensures var flow := UpdateApiSecretObject(s, name, input);
      && flow == Stop(flow.store, true, input.faults(UpdateApiSecret).Failed())
      && flow.store == s.(secrets := flow.store.secrets) && name in flow.store.secrets
      && (!flow.failed ==> !SecretNeedsUpdating(flow.store.secrets[name].data, input.crypt))
  {
    UpdateSettles(s.secrets[name].data, input.crypt, input.salt, input.salt);
    hide SecretNeedsUpdating, HtpasswdFromSecret;
  }

  // Naming generated credentials: the object names them unless the reconcile
  // fails.
  lemma CredentialsNamed(s: Store, input: Input)
    requires s.ironic.Some? && GenerateSecret(s.ironic.value, input).Some?
    requires !input.faults(CreateApiSecret).Failed() && input.freshName !in s.secrets
    ensures var flow := CreateApiSecretObject(s, input);
      && flow == Stop(flow.store, true, input.faults(UpdateIronic).Failed())
      && flow.store.ironic.Some? && input.freshName in flow.store.secrets
      && flow.store.secrets[input.freshName].environment && !flow.store.secrets[input.freshName].managed
      && (!flow.failed ==> flow.store.ironic.value.spec.apiCredentials == input.freshName)
  {
    hide Updated;
  }
}
