// What has to be in order before a reconcile deploys anything, and before it
// reports Ready=True; whichever of its calls fail.
module Gates {
  import opened Options
  import opened Versions
  import opened Htpasswd
  import opened Cluster
  import opened Workloads
  import opened SecretManager
  import opened SwitchSecrets
  import opened Networking
  import opened Deploy
  import opened Controller
  import opened Convergence
  import opened Targets
  import opened Preparation
  import opened Ordering
  import opened Runs

  /* ---- The gate ---- */

  // The version that the object asks for.
  ghost predicate Asks(spec: Spec, defaultVersion: ParsedVersion, v: ParsedVersion) {
    if spec.version == "" then v == defaultVersion else ParseVersion(spec.version) == Some(v)
  }

  // With a database, a new request is compared to the installed version.
  ghost predicate Downgrade(ironic: Ironic, v: ParsedVersion) {
    var installed := ironic.status.installed;
    && ironic.spec.database && installed != ""
    && v.ToString() != installed && v.ToString() != ironic.status.requested
    && (ParseVersion(installed).None?
        || (!ParseVersion(installed).value.IsLatest() && !AtMost(ParseVersion(installed).value, v)))
  }

  ghost predicate Labelled(secrets: Secrets, name: string) {
    name in secrets && secrets[name].environment
  }

  ghost predicate ReferenceLabelled(s: Store, reference: Option<Reference>) {
    reference.Some? ==>
      || (reference.value.kind.SecretKind? && Labelled(s.secrets, reference.value.name))
      || (reference.value.kind.ConfigMapKind? && Labelled(s.configMaps, reference.value.name))
  }

  // Every linked object is there and labelled, and the credentials are usable.
  ghost predicate LinksLabelled(s: Store, spec: Spec, crypt: Crypt) {
    && Labelled(s.secrets, spec.apiCredentials)
    && !SecretNeedsUpdating(s.secrets[spec.apiCredentials].data, crypt)
    && (spec.certificate != "" ==> Labelled(s.secrets, spec.certificate))
    && ReferenceLabelled(s, spec.bmcCA) && ReferenceLabelled(s, spec.trustedCA)
  }

  // The object may be deployed in this version.
  ghost predicate Admitted(s: Store, v: ParsedVersion, input: Input) {
    && s.ironic.Some? && s.ironic.value.finalizer && !s.ironic.value.deleting
    && var spec := s.ironic.value.spec;
    && Asks(spec, input.defaultVersion, v)
    && !Downgrade(s.ironic.value, v)
    && spec.apiCredentials != "" && LinksLabelled(s, spec, input.crypt)
    && (spec.extraRanges ==> AtMost(VERSION_37_0, v))
    && input.valid(spec)
  }

  // And the networking service is in place, or gone.
  ghost predicate Gate(s: Store, v: ParsedVersion, input: Input, t: Store) {
    && Admitted(s, v, input)
    && t.ironic.Some? && t.ironic.value.spec == s.ironic.value.spec
    && NetworkingAsked(t, v.ToString()) && NetworkingUp(t)
  }

  // Nothing is deployed, and no status says that anything is.
  ghost predicate Undeployed(s: Store, t: Store) {
    && t.jobs == s.jobs && t.deployment == s.deployment && t.daemonSet == s.daemonSet
    && t.service == s.service && t.ingress == s.ingress && t.monitor == s.monitor
    && s.journal <= t.journal
    && (forall i | |s.journal| <= i < |t.journal| :: QuietEvent(t.journal[i]))
    && (s.ironic.Some? ==>
          && t.ironic.Some?
          && (var a, b := s.ironic.value.status, t.ironic.value.status;
              b == a || (!b.Ready() && b.installed == a.installed)))
  }

  // A status that reports Ready for version v is true of the store.
  ghost predicate Earned(t: Store, v: ParsedVersion, status: Status) {
    && t.ironic.Some?
    && status.installed == v.ToString()
    && status.condition.Some? && status.condition.value.generation == t.ironic.value.generation
    && AllAsked(t, v.ToString()) && AllUp(t)
  }

  ghost predicate ReadyEarned(s: Store, t: Store, v: ParsedVersion) {
    forall i | |s.journal| <= i < |t.journal| && t.journal[i].StatusWritten? && t.journal[i].after.Ready() ::
      Earned(t, v, t.journal[i].after)
  }

  lemma QuietIsUndeployed(s: Store, t: Store)
    requires s.ironic.Some? && Quiet(s, t)
    ensures Undeployed(s, t)
  {
  }

  lemma EarnedSince(s: Store, t: Store, u: Store, v: ParsedVersion)
    requires s.ironic.Some? && Undeployed(s, t) && t.journal <= u.journal && ReadyEarned(t, u, v)
    ensures ReadyEarned(s, u, v)
  {
    hide Earned;
    assert forall i | 0 <= i < |t.journal| :: u.journal[i] == t.journal[i];
  }

  lemma UndeployedTransitive(s: Store, t: Store, u: Store)
    requires s.ironic.Some? && Undeployed(s, t) && Undeployed(t, u)
    ensures Undeployed(s, u)
  {
    forall i | |s.journal| <= i < |u.journal| ensures QuietEvent(u.journal[i]) {
      if i < |t.journal| {
        assert u.journal[i] == t.journal[i];
      }
    }
  }

  /* ---- Preparing ---- */

  lemma GrantedRequest(s: Store, v: ParsedVersion, input: Input)
    requires s.ironic.Some? && RequestVersion(s, v, input).Go?
    ensures !Downgrade(s.ironic.value, v)
    ensures var t := RequestVersion(s, v, input).store; t.secrets == s.secrets && t.configMaps == s.configMaps
  {
    var installed := ParseVersion(s.ironic.value.status.installed);
    if installed.Some? {
      CompareIsTheOrder(v, installed.value);
    }
    hide ParseVersion, Complain, Version.ToString, AtMost, Version.Compare;
  }

  // The same secrets under the same labels.
  ghost predicate SameLabels(a: Secrets, b: Secrets) {
    && (forall name :: name in a <==> name in b)
    && (forall name | name in a :: b[name].environment == a[name].environment && b[name].data == a[name].data)
  }

  lemma LinkedSecret(s: Store, role: Role, name: string, input: Input)
    requires s.ironic.Some? && LinkSecret(s, role, name, input).Go?
    ensures var t := LinkSecret(s, role, name, input).store;
      t == s.(secrets := t.secrets) && SameLabels(s.secrets, t.secrets) && Labelled(s.secrets, name)
  {
  }

  lemma LinkedReference(s: Store, role: Role, reference: Option<Reference>, input: Input)
    requires s.ironic.Some? && LinkReference(s, role, reference, input).Go?
    ensures var t := LinkReference(s, role, reference, input).store;
      t == s.(secrets := t.secrets) && SameLabels(s.secrets, t.secrets) && ReferenceLabelled(s, reference)
  {
    hide LinkSecret, Complain;
    if reference.Some? && reference.value.kind.SecretKind? {
      LinkedSecret(s, role, reference.value.name, input);
    }
  }

  lemma LinkedAll(s: Store, input: Input)
    requires s.ironic.Some? && LinkAll(s, input).Go?
    ensures var spec := s.ironic.value.spec;
      && (spec.certificate != "" ==> Labelled(s.secrets, spec.certificate))
      && ReferenceLabelled(s, spec.bmcCA) && ReferenceLabelled(s, spec.trustedCA)
  {
    hide LinkSecret, LinkReference;
    var spec := s.ironic.value.spec;
    var t := if spec.certificate == "" then Go(s) else LinkSecret(s, Certificate, spec.certificate, input);
    if spec.certificate != "" {
      LinkedSecret(s, Certificate, spec.certificate, input);
    }
    LinkedReference(t.store, BmcCA, spec.bmcCA, input);
    var u := LinkReference(t.store, BmcCA, spec.bmcCA, input);
    LinkedReference(u.store, TrustedCA, spec.trustedCA, input);
  }

  lemma LinkedCredentials(s: Store, input: Input)
    requires s.ironic.Some? && EnsureApiSecret(s, input).Go?
    ensures var name := s.ironic.value.spec.apiCredentials;
      var t := EnsureApiSecret(s, input).store;
      && name != "" && Labelled(s.secrets, name) && !SecretNeedsUpdating(s.secrets[name].data, input.crypt)
      && t == s.(secrets := t.secrets) && SameLabels(s.secrets, t.secrets)
  {
    hide LinkSecret, Complain, SecretNeedsUpdating, HtpasswdFromSecret;
    LinkedSecret(s, ApiCredentials, s.ironic.value.spec.apiCredentials, input);
  }

  // Getting past the preparation means that all of it was in order before.
  lemma PreparedInOrder(s: Store, v: ParsedVersion, input: Input)
    requires s.ironic.Some? && Prepare(s, v, input).Go?
    ensures var spec := s.ironic.value.spec;
      !Downgrade(s.ironic.value, v) && spec.apiCredentials != "" && LinksLabelled(s, spec, input.crypt)
  {
    hide RequestVersion, EnsureApiSecret, LinkAll, SecretNeedsUpdating, Downgrade;
    GrantedRequest(s, v, input);
    var t := RequestVersion(s, v, input).store;
    LinkedCredentials(t, input);
    var u := EnsureApiSecret(t, input).store;
    LinkedAll(u, input);
  }

  /* ---- Installing ---- */

  lemma NetworkingInPlace(s: Store, version: string, input: Input)
    requires s.ironic.Some?
    ensures var (secrets, switches) := EnsureNetworkingSwitchSecrets(s.secrets, s.ironic.value, input);
      var stage := EnsureIronicNetworking(s.(secrets := secrets), switches, version, input);
      && stage.store == s.(secrets := secrets, networkDeployment := stage.store.networkDeployment,
                           networkService := stage.store.networkService)
      && (!switches.Problem? && stage.Passed? ==> NetworkingAsked(stage.store, version) && NetworkingUp(stage.store))
  {
    hide EnsureNetworkingSwitchSecrets, EnsureIronicNetworking, NetworkingAsked, NetworkingUp;
    var (secrets, switches) := EnsureNetworkingSwitchSecrets(s.secrets, s.ironic.value, input);
    if switches.Provided? {
      SwitchSecretsProvided(s.secrets, s.ironic.value, input);
    } else if s.ironic.value.spec.NetworkingEnabled() {
      EnabledIsNotOff(s.secrets, s.ironic.value, input);
    }
    NetworkingWritten(s.(secrets := secrets), switches, version, input);
  }

  lemma NetworkingWritten(s: Store, switches: Switches, version: string, input: Input)
    requires s.ironic.Some?
    ensures var ironic := s.ironic.value;
      var stage := EnsureIronicNetworking(s, switches, version, input);
      && stage.store == s.(networkDeployment := stage.store.networkDeployment,
                           networkService := stage.store.networkService)
      && (stage.Passed?
          && (ironic.spec.NetworkingEnabled() ==>
                && switches.Provided?
                && switches.config.data == StoredData(s.secrets, ConfigName(ironic))
                && switches.credentials.data == StoredData(s.secrets, CredentialsName(ironic))) ==>
            NetworkingAsked(stage.store, version) && NetworkingUp(stage.store))
  {
    hide ConfigName, CredentialsName;
    RemovalPassed(s, input);
    hide RemoveNetworkingResources;
  }

  lemma RemovalPassed(s: Store, input: Input)
    ensures var stage := RemoveNetworkingResources(s, input);
      stage.Passed? ==> stage.store == s.(networkDeployment := None, networkService := false)
  {
  }

  lemma EnabledIsNotOff(secrets: Secrets, ironic: Ironic, input: Input)
    requires ironic.spec.NetworkingEnabled()
    ensures !EnsureNetworkingSwitchSecrets(secrets, ironic, input).1.Off?
  {
    hide EnsureSwitchSecret, Acquire;
  }

  // Deploying writes no status, and is ready only when everything stands.
  lemma DeployedStands(s: Store, version: string, input: Input)
    requires s.ironic.Some? && NetworkingAsked(s, version) && NetworkingUp(s)
    ensures var (w, progress) := EnsureIronic(s, version, input);
      && w.ironic == s.ironic && NetworkingAsked(w, version) && NetworkingUp(w)
      && s.journal <= w.journal
      && (forall i | |s.journal| <= i < |w.journal| :: !w.journal[i].StatusWritten?)
      && (progress.Ready? ==> AllAsked(w, version) && AllUp(w))
  {
    hide EnsureIronic, WorkloadAsked, WorkloadUp, IngressAsked, MonitorAsked, JobDone, Complete;
    var pre, work, post := DeployOrder(s, version, input);
    var (w, progress) := EnsureIronic(s, version, input);
    NetworkingFrame(s, w, version);
    hide NetworkingAsked, NetworkingUp;
    var news := pre + work + post;
    assert w.journal == s.journal + news;
    assert forall i | 0 <= i < |news| :: !news[i].StatusWritten?;
  }

  lemma OutcomeIsEarned(w: Store, progress: Progress, v: ParsedVersion, input: Input)
    requires w.ironic.Some? && NetworkingAsked(w, v.ToString()) && NetworkingUp(w)
    requires progress.Ready? ==> AllAsked(w, v.ToString()) && AllUp(w)
    ensures var t := UpdateIronicStatus(w, progress, v.ToString(), input).store;
      && t == w.(ironic := t.ironic, journal := t.journal)
      && t.ironic.Some? && t.ironic.value == w.ironic.value.(status := t.ironic.value.status)
      && NetworkingAsked(t, v.ToString()) && NetworkingUp(t)
      && w.journal <= t.journal && ReadyEarned(w, t, v)
      && (progress.Fatal? ==> Undeployed(w, t))
  {
    var version := v.ToString();
    var t := UpdateIronicStatus(w, progress, version, input).store;
    OutcomeFrame(w, progress, version, input);
    hide Version.ToString, UpdateIronicStatus, WorkloadAsked, WorkloadUp, ServiceAsked, IngressAsked, MonitorAsked;
    hide NetworkingAsked, NetworkingUp, ConditionFor;
    NetworkingFrame(w, t, version);
    StandingFrame(w, t, version);
  }

  // At most one write, of the status that goes with the progress.
  lemma OutcomeFrame(w: Store, progress: Progress, version: string, input: Input)
    requires w.ironic.Some?
    ensures var t := UpdateIronicStatus(w, progress, version, input).store;
      var before, after := w.ironic.value.status, StatusAfter(w.ironic.value, progress, version);
      && t == w.(ironic := t.ironic, journal := t.journal)
      && t.ironic.Some? && t.ironic.value == w.ironic.value.(status := t.ironic.value.status)
      && (|| (t.journal == w.journal && t.ironic == w.ironic)
          || (t.journal == w.journal + [StatusWritten(before, after)] && t.ironic.value.status == after))
  {
  }

  // The last part of an installation, with the networking service in place.
  lemma DeployedIsEarned(s: Store, v: ParsedVersion, input: Input)
    requires s.ironic.Some? && NetworkingAsked(s, v.ToString()) && NetworkingUp(s)
    ensures var t := DeployedAndReported(s, v.ToString(), input).store;
      && s.journal <= t.journal && ReadyEarned(s, t, v)
      && t.ironic.Some? && t.ironic.value.spec == s.ironic.value.spec
      && NetworkingAsked(t, v.ToString()) && NetworkingUp(t)
      && (!input.valid(s.ironic.value.spec) ==> Undeployed(s, t))
  {
    hide EnsureIronic, UpdateIronicStatus, Version.ToString, NetworkingAsked, NetworkingUp, AllAsked, AllUp, Earned;
    var (w, progress) := EnsureIronic(s, v.ToString(), input);
    DeployedStands(s, v.ToString(), input);
    OutcomeIsEarned(w, progress, v, input);
    InvalidIsFatal(s, v.ToString(), input);
  }

  lemma InvalidIsFatal(s: Store, version: string, input: Input)
    requires s.ironic.Some?
    ensures !input.valid(s.ironic.value.spec) ==> EnsureIronic(s, version, input) == (s, Fatal(InvalidSpec))
  {
  }

  lemma NetworkingFrame(s: Store, t: Store, version: string)
    requires s.ironic.Some? && t.ironic.Some? && t.secrets == s.secrets
    requires t.ironic.value == s.ironic.value.(status := t.ironic.value.status)
    requires t.networkDeployment == s.networkDeployment && t.networkService == s.networkService
    ensures NetworkingAsked(t, version) == NetworkingAsked(s, version) && NetworkingUp(t) == NetworkingUp(s)
  {
  }

  lemma StandingFrame(s: Store, t: Store, version: string)
    requires s.ironic.Some? && t.ironic.Some? && t == s.(ironic := t.ironic, journal := t.journal)
    requires t.ironic.value == s.ironic.value.(status := t.ironic.value.status)
    ensures WorkloadAsked(t, version) == WorkloadAsked(s, version) && WorkloadUp(t) == WorkloadUp(s)
    ensures AccessInPlace(t, version) == AccessInPlace(s, version)
  {
    hide DeploymentUp, DaemonSetUp;
  }

  lemma InstallGated(s: Store, v: ParsedVersion, input: Input)
    requires s.ironic.Some?
    ensures var t := Install(s, v, input).store;
      var spec := s.ironic.value.spec;
      && s.journal <= t.journal && ReadyEarned(s, t, v)
      && (|| Undeployed(s, t)
          || (&& input.valid(spec) && (spec.extraRanges ==> AtMost(VERSION_37_0, v))
              && t.ironic.Some? && t.ironic.value.spec == spec
              && NetworkingAsked(t, v.ToString()) && NetworkingUp(t)))
  {
    hide EnsureNetworkingSwitchSecrets, EnsureIronicNetworking, DeployedAndReported, Install, Complain;
    hide Version.ToString, AtMost, NetworkingAsked, NetworkingUp, Earned;
    var (secrets, switches) := EnsureNetworkingSwitchSecrets(s.secrets, s.ironic.value, input);
    var t := s.(secrets := secrets);
    CompareIsTheOrder(v, VERSION_37_0);
    if switches.Problem? || VersionTooOldFor(s.ironic.value.spec, v) {
      InstallRefused(s, v, input);
    } else {
      InstallInSteps(s, v, input);
      NetworkingInPlace(s, v.ToString(), input);
      var stage := EnsureIronicNetworking(t, switches, v.ToString(), input);
      if stage.Passed? {
        DeployedIsEarned(stage.store, v, input);
      }
    }
  }

  lemma InstallRefused(s: Store, v: ParsedVersion, input: Input)
    requires s.ironic.Some?
    requires VersionTooOldFor(s.ironic.value.spec, v)
             || EnsureNetworkingSwitchSecrets(s.secrets, s.ironic.value, input).1.Problem?
    ensures Undeployed(s, Install(s, v, input).store)
  {
    hide EnsureNetworkingSwitchSecrets, EnsureIronicNetworking, EnsureIronic, UpdateIronicStatus, Complain;
    var t := s.(secrets := EnsureNetworkingSwitchSecrets(s.secrets, s.ironic.value, input).0);
    ComplainIsSilent(t, BadLink(SwitchConfig), input);
    ComplainIsSilent(t, VersionTooOld, input);
  }

  /* ---- Whole reconciles ---- */

  // A reconcile deploys nothing unless everything is in order, and reports
  // Ready=True only if that is true.
  lemma ReconcileGated(s: Store, input: Input)
    ensures var t := Reconcile(s, input).store;
      || Undeployed(s, t)
      || exists v: ParsedVersion :: Gate(s, v, input, t) && ReadyEarned(s, t, v)
  {
    hide CleanUp, Prepare, Install, Complain, ParseVersion, Version.ToString, Downgrade, LinksLabelled;
    hide NetworkingAsked, NetworkingUp, Earned, AtMost;
    if s.ironic.Some? {
      if s.ironic.value.deleting {
        CleanUpIsQuiet(s, input);
      } else if s.ironic.value.finalizer && !input.faults(GetIronic).Failed() {
        var effective := EffectiveVersion(s.ironic.value.spec, input.defaultVersion);
        ComplainIsSilent(s, BadVersion, input);
        if effective.Some? {
          PrepareAndInstallGated(s, effective.value, input);
        }
      }
    }
  }

  lemma PrepareAndInstallGated(s: Store, v: ParsedVersion, input: Input)
    requires s.ironic.Some? && s.ironic.value.finalizer && !s.ironic.value.deleting
    requires EffectiveVersion(s.ironic.value.spec, input.defaultVersion) == Some(v)
    ensures var u := Prepare(s, v, input);
      var t := if u.Go? then Install(u.store, v, input).store else u.store;
      || Undeployed(s, t)
      || (Gate(s, v, input, t) && ReadyEarned(s, t, v))
  {
    hide Prepare, Install, ParseVersion, Version.ToString, Downgrade, LinksLabelled;
    hide NetworkingAsked, NetworkingUp, Earned, AtMost;
    PreparedQuietly(s, v, input);
    var u := Prepare(s, v, input);
    QuietIsUndeployed(s, u.store);
    if u.Go? {
      PreparedInOrder(s, v, input);
      InstallGated(u.store, v, input);
      var t := Install(u.store, v, input).store;
      if Undeployed(u.store, t) {
        UndeployedTransitive(s, u.store, t);
      } else {
        EarnedSince(s, u.store, t, v);
      }
    }
  }

  // In particular for an object that was asked for in version v.
  lemma NotAdmitted(s: Store, v: ParsedVersion, input: Input)
    requires s.ironic.Some? && Asks(s.ironic.value.spec, input.defaultVersion, v) && !Admitted(s, v, input)
    ensures Undeployed(s, Reconcile(s, input).store)
  {
    hide Reconcile, Undeployed, NetworkingAsked, NetworkingUp, ReadyEarned, ParseVersion, LinksLabelled, Downgrade;
    ReconcileGated(s, input);
  }

  // A spec that validation refuses is not deployed, in any part.
  lemma InvalidSpecIsNotDeployed(s: Store, input: Input)
    requires s.ironic.Some? && !input.valid(s.ironic.value.spec)
    ensures Undeployed(s, Reconcile(s, input).store)
  {
    hide Reconcile, Undeployed, NetworkingAsked, NetworkingUp, ReadyEarned, ParseVersion, LinksLabelled, Downgrade;
    ReconcileGated(s, input);
  }

  // A refused downgrade changes nothing but the status: it reports Ready=False
  // if it can be written, and leaves both versions as they are.
  lemma RefusedDowngrade(s: Store, v: ParsedVersion, input: Input)
    requires s.ironic.Some? && s.ironic.value.finalizer && !s.ironic.value.deleting
    requires !input.faults(GetIronic).Failed()
    requires Asks(s.ironic.value.spec, input.defaultVersion, v) && Downgrade(s.ironic.value, v)
    requires ParseVersion(s.ironic.value.status.installed).Some?
    ensures var flow := Reconcile(s, input);
      var before, after := s.ironic.value.status, flow.store.ironic.value.status;
      && flow == Stop(flow.store, false, false)
      && flow.store == s.(ironic := Some(s.ironic.value.(status := after)), journal := flow.store.journal)
      && after.installed == before.installed && after.requested == before.requested
      && (if input.faults(WriteNotReady).Applied() then
            after.condition.Some? && !after.Ready() && after.condition.value.reason.Failed?
          else after == before)
  {
    hide Version.ToString, EnsureApiSecret, LinkAll, Install;
    CompareIsTheOrder(v, ParseVersion(s.ironic.value.status.installed).value);
    assert EffectiveVersion(s.ironic.value.spec, input.defaultVersion) == Some(v);
    hide ParseVersion, AtMost, Version.Compare, EffectiveVersion;
    assert RequestVersion(s, v, input) == Stop(Complain(s, DowngradeRefused, input), false, false);
  }

  /* ---- Quiet ends ---- */

  // The status is about this generation of the object, and if it says Ready,
  // everything that the object asks for stands.
  ghost predicate TrueStatus(t: Store, v: ParsedVersion) {
    && t.ironic.Some?
    && var status := t.ironic.value.status;
    && status.condition.Some? && status.condition.value.generation == t.ironic.value.generation
    && (status.Ready() ==> status.installed == v.ToString() && AllAsked(t, v.ToString()) && AllUp(t))
  }

  lemma DeployedEndsTrue(s: Store, v: ParsedVersion, input: Input)
    requires s.ironic.Some? && NetworkingAsked(s, v.ToString()) && NetworkingUp(s)
    ensures var flow := DeployedAndReported(s, v.ToString(), input);
      flow == Stop(flow.store, false, false) ==> TrueStatus(flow.store, v)
  {
    var version := v.ToString();
    var flow := DeployedAndReported(s, version, input);
    DeployedStands(s, version, input);
    var (w, progress) := EnsureIronic(s, version, input);
    hide EnsureIronic, Version.ToString;
    if flow == Stop(flow.store, false, false) {
      OutcomeIsEarned(w, progress, v, input);
      StandingFrame(w, flow.store, version);
      hide WorkloadAsked, WorkloadUp, ServiceAsked, IngressAsked, MonitorAsked, NetworkingAsked, NetworkingUp;
      assert flow.store.ironic.value.status == StatusAfter(w.ironic.value, progress, version);
    }
  }

  // A reconcile that neither fails nor asks for another one leaves a status
  // that is true, unless it refused the version.
  lemma QuietEndsAreTrue(s: Store, v: ParsedVersion, input: Input)
    requires s.ironic.Some? && s.ironic.value.finalizer && !s.ironic.value.deleting
    requires Asks(s.ironic.value.spec, input.defaultVersion, v) && !Downgrade(s.ironic.value, v)
    requires s.ironic.value.spec.extraRanges ==> AtMost(VERSION_37_0, v)
    ensures var flow := Reconcile(s, input);
      flow == Stop(flow.store, false, false) ==> TrueStatus(flow.store, v)
  {
    hide Prepare, Install, TrueStatus, ParseVersion, Version.ToString, AtMost, Downgrade;
    assert EffectiveVersion(s.ironic.value.spec, input.defaultVersion) == Some(v);
    hide EffectiveVersion;
    var u := Prepare(s, v, input);
    if !input.faults(GetIronic).Failed() {
      if u.Go? {
        PreparedQuietly(s, v, input);
        InstallEndsTrue(u.store, v, input);
      } else {
        PrepareEndsLoudly(s, v, input);
      }
    }
  }

  lemma InstallEndsTrue(s: Store, v: ParsedVersion, input: Input)
    requires s.ironic.Some? && (s.ironic.value.spec.extraRanges ==> AtMost(VERSION_37_0, v))
    ensures var flow := Install(s, v, input);
      flow == Stop(flow.store, false, false) ==> TrueStatus(flow.store, v)
  {
    CompareIsTheOrder(v, VERSION_37_0);
    assert !VersionTooOldFor(s.ironic.value.spec, v);
    hide EnsureNetworkingSwitchSecrets, EnsureIronicNetworking, DeployedAndReported, Install, Complain;
    hide Version.ToString, AtMost, NetworkingAsked, NetworkingUp, TrueStatus, VersionTooOldFor;
    var (secrets, switches) := EnsureNetworkingSwitchSecrets(s.secrets, s.ironic.value, input);
    if switches.Problem? {
      ProblemFails(s, v, input);
    } else {
      InstallInSteps(s, v, input);
      NetworkingInPlace(s, v.ToString(), input);
      var stage := EnsureIronicNetworking(s.(secrets := secrets), switches, v.ToString(), input);
      if stage.Passed? {
        DeployedEndsTrue(stage.store, v, input);
      }
    }
  }

  lemma ProblemFails(s: Store, v: ParsedVersion, input: Input)
    requires s.ironic.Some? && EnsureNetworkingSwitchSecrets(s.secrets, s.ironic.value, input).1.Problem?
    ensures Install(s, v, input).failed
  {
    hide EnsureNetworkingSwitchSecrets, Complain;
  }

  lemma PrepareEndsLoudly(s: Store, v: ParsedVersion, input: Input)
    requires s.ironic.Some? && !Downgrade(s.ironic.value, v) && Prepare(s, v, input).Stop?
    ensures Prepare(s, v, input).requeue || Prepare(s, v, input).failed
  {
    hide LinkAll, EnsureApiSecret, ParseVersion, Version.ToString;
    if ParseVersion(s.ironic.value.status.installed).Some? {
      CompareIsTheOrder(v, ParseVersion(s.ironic.value.status.installed).value);
    }
    hide AtMost, Version.Compare;
    var t := RequestVersion(s, v, input);
    if t.Go? {
      CredentialsEndLoudly(t.store, input);
      var u := EnsureApiSecret(t.store, input);
      if u.Go? {
        LinksEndLoudly(u.store, input);
      }
    }
  }

  lemma CredentialsEndLoudly(s: Store, input: Input)
    requires s.ironic.Some?
    ensures var r := EnsureApiSecret(s, input); r.Stop? ==> r.requeue || r.failed
  {
    hide Complain, GenerateSecret, Updated, Acquire;
  }

  lemma LinksEndLoudly(s: Store, input: Input)
    requires s.ironic.Some?
    ensures var r := LinkAll(s, input); r.Stop? ==> r.requeue || r.failed
  {
    hide Complain, Acquire;
  }

  // What is reported of a linked object that cannot be used: mistakes that
  // only the user can put right, and nothing else.
  lemma MistakesAreReported(s: Store, role: Role, name: string, input: Input)
    requires s.ironic.Some? && LinkSecret(s, role, name, input).Stop?
    requires input.faults(WriteNotReady).Applied()
    ensures var before, after := s.ironic.value.status, LinkSecret(s, role, name, input).store.ironic.value.status;
      var readable := !input.faults(ReadCache(role)).Failed() && !input.faults(ReadApi(role)).Failed();
      && (readable && !Labelled(s.secrets, name) ==> after == NotReady(s.ironic.value, Failed, BadLink(role)))
      && (Labelled(s.secrets, name) ==> after == before)
  {
  }

  /* ---- Runs ---- */

  // What counts as deploying.
  ghost predicate Deploying(e: Event) {
    e.WorkloadWritten? || e.JobCreated? || e.JobSeenComplete? || (e.StatusWritten? && e.after.Ready())
  }

  // In every run, each job, each workload and each status that reports
  // Ready=True comes from a reconcile of an object that it was in order to
  // deploy, and such a status is true.
  lemma DeploymentsAreGated(states: seq<Store>, moves: seq<Move>, n: nat, k: nat) returns (v: ParsedVersion)
    requires Run(states, moves) && n < |moves|
    requires |states[n].journal| <= k < |states[n + 1].journal| && Deploying(states[n + 1].journal[k])
    ensures moves[n].Reconciled?
    ensures Gate(states[n], v, moves[n].input, states[n + 1])
    ensures states[n + 1].journal[k].StatusWritten? ==> Earned(states[n + 1], v, states[n + 1].journal[k].after)
  {
    hide Reconcile, Gate, Earned;
    var s, t := states[n], states[n + 1];
    assert Next(s, moves[n], t);
    assert moves[n].Reconciled?;
    ReconcileGated(s, moves[n].input);
    assert !QuietEvent(t.journal[k]);
    v :| Gate(s, v, moves[n].input, t) && ReadyEarned(s, t, v);
  }
}
