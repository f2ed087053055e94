// Convergence of whole histories: reconciles of an accepted object, while the
// cluster works on what it is given.
module Fixpoint {
  import opened Options
  import opened Versions
  import opened Htpasswd
  import opened Cluster
  import opened SecretManager
  import opened SwitchSecrets
  import opened Controller
  import opened Convergence
  import opened Targets
  import opened Runs

  /* ---- What the user has to provide ---- */

  // Usable credentials; the user name must not be blank.
  ghost predicate CredentialsGood(data: Data, crypt: Crypt) {
    && USERNAME in data && PASSWORD in data
    && NormalizeSecretValue(data[USERNAME]) != ""
    && CheckValidUser(NormalizeSecretValue(data[USERNAME]), crypt)
    && forall salt :: crypt.hash(NormalizeSecretValue(data[PASSWORD]), salt).Some?
  }

  // A linked secret is there, labelled, and not one that the operator manages.
  ghost predicate LinkOk(secrets: Secrets, name: string) {
    name in secrets && secrets[name].environment && !secrets[name].managed
  }

  ghost predicate ReferenceOk(s: Store, reference: Option<Reference>) {
    match reference
    case None => true
    case Some(Reference(SecretKind, name)) => LinkOk(s.secrets, name)
    case Some(Reference(ConfigMapKind, name)) => name in s.configMaps && s.configMaps[name].environment
    case Some(Reference(OtherKind, _)) => false
  }

  ghost predicate CredentialsOk(s: Store, crypt: Crypt)
    requires s.ironic.Some?
  {
    var name := s.ironic.value.spec.apiCredentials;
    name != "" ==> LinkOk(s.secrets, name) && CredentialsGood(s.secrets[name].data, crypt)
  }

  // The random data make usable credentials under an unused name.
  ghost predicate Generates(s: Store, input: Input)
    requires s.ironic.Some?
  {
    && input.password.Some? && input.freshName !in s.secrets
    && CredentialsGood(map[USERNAME := s.ironic.value.name, PASSWORD := input.password.value], input.crypt)
  }

  // The requested version passes the downgrade check.
  ghost predicate NotRefused(s: Store, v: Version)
    requires s.ironic.Some?
  {
    var status := s.ironic.value.status;
    v.ToString() != status.installed && v.ToString() != status.requested
    && status.installed != "" && s.ironic.value.spec.database ==>
      && ParseVersion(status.installed).Some?
      && (ParseVersion(status.installed).value.IsLatest() || v.Compare(ParseVersion(status.installed).value) >= 0)
  }

  // A live object asking for version v, with everything it refers to in order.
  ghost predicate Accepted(s: Store, v: ParsedVersion, input: Input): (accepted: bool)
    ensures accepted ==> s.ironic.Some?
  {
    && s.ironic.Some? && !s.ironic.value.deleting
    && var spec := s.ironic.value.spec;
    && EffectiveVersion(spec, input.defaultVersion) == Some(v)
    && NotRefused(s, v)
    && !VersionTooOldFor(spec, v)
    && (forall name :: input.valid(spec.(apiCredentials := name)))
    && JobsCurrent(s, v.ToString())
    && CredentialsOk(s, input.crypt)
    && (spec.certificate != "" ==> LinkOk(s.secrets, spec.certificate))
    && ReferenceOk(s, spec.bmcCA) && ReferenceOk(s, spec.trustedCA)
    && SwitchSecretOk(s, SwitchConfig) && SwitchSecretOk(s, SwitchCredentials)
  }

  /* ---- What is still to be done ---- */

  function ToClaim(s: Store, name: string): (n: nat)
    requires s.ironic.Some?
    ensures n <= 1
  {
    Flag(name in s.secrets && s.ironic.value.uid !in s.secrets[name].owners)
  }

  function ReferenceToClaim(s: Store, reference: Option<Reference>): (n: nat)
    requires s.ironic.Some?
    ensures n <= 1
  {
    if reference.Some? && reference.value.kind.SecretKind? then ToClaim(s, reference.value.name) else 0
  }

  function CertificateToClaim(s: Store): (n: nat)
    requires s.ironic.Some?
    ensures n <= 1
  {
    var name := s.ironic.value.spec.certificate;
    if name == "" then 0 else ToClaim(s, name)
  }

  function LinksToClaim(s: Store): (n: nat)
    requires s.ironic.Some?
    ensures n <= 4
  {
    var spec := s.ironic.value.spec;
    (if spec.apiCredentials == "" then 0 else ToClaim(s, spec.apiCredentials)) + CertificateToClaim(s)
    + ReferenceToClaim(s, spec.bmcCA) + ReferenceToClaim(s, spec.trustedCA)
  }

  function CredentialsToName(s: Store): (n: nat)
    requires s.ironic.Some?
    ensures n <= 1
  {
    Flag(s.ironic.value.spec.apiCredentials == "")
  }

  function HtpasswdToWrite(s: Store, crypt: Crypt): (n: nat)
    requires s.ironic.Some?
    ensures n <= 1
  {
    var name := s.ironic.value.spec.apiCredentials;
    Flag(name != "" && name in s.secrets && SecretNeedsUpdating(s.secrets[name].data, crypt))
  }

  function VersionToRecord(s: Store, version: string): (n: nat)
    requires s.ironic.Some?
    ensures n <= 1
  {
    Flag(version != s.ironic.value.status.installed && version != s.ironic.value.status.requested)
  }

  // Naming generated credentials changes every template, so it outweighs all
  // of the deployment; a new htpasswd entry restarts the pods that mount it.
  function Work(s: Store, version: string, crypt: Crypt): (n: nat)
    requires s.ironic.Some?
    ensures n <= 33
  {
    Flag(!s.ironic.value.finalizer) + 12 * CredentialsToName(s) + 4 * HtpasswdToWrite(s, crypt)
    + LinksToClaim(s) + VersionToRecord(s, version) + InstallToWrite(s, version)
  }

  /* ---- Before the deployment ---- */

  // The same secrets, apart from owners that were added.
  ghost predicate Grown(a: Secrets, b: Secrets) {
    && (forall name | name in b :: name in a)
    && (forall name | name in a :: name in b && b[name] == a[name].(owners := b[name].owners))
    && (forall name, owner | name in a && owner in a[name].owners :: owner in b[name].owners)
  }

  // The same deployment to work on: the object may gain a finalizer and change
  // its status, but not the installed version; secrets may gain owners.
  ghost predicate SameWork(s: Store, t: Store)
    requires s.ironic.Some?
  {
    && t.ironic.Some?
    && t.ironic.value == s.ironic.value.(finalizer := t.ironic.value.finalizer, status := t.ironic.value.status)
    && t.ironic.value.status.installed == s.ironic.value.status.installed
    && t == s.(ironic := t.ironic, secrets := t.secrets, journal := t.journal)
    && Grown(s.secrets, t.secrets)
  }

  lemma WorkUntouched(s: Store, t: Store, version: string)
    requires s.ironic.Some? && SameWork(s, t)
    ensures InstallToWrite(t, version) == InstallToWrite(s, version)
  {
    hide SwitchesToWrite, NetworkToWrite, DeployToWrite;
    NetworkWorkUntouched(s, t, version);
    DeployWorkUntouched(s, t, version);
  }

  lemma NetworkWorkUntouched(s: Store, t: Store, version: string)
    requires s.ironic.Some? && SameWork(s, t)
    ensures SwitchesToWrite(t) == SwitchesToWrite(s) && NetworkToWrite(t, version) == NetworkToWrite(s, version)
  {
  }

  lemma DeployWorkUntouched(s: Store, t: Store, version: string)
    requires s.ironic.Some? && SameWork(s, t)
    ensures DeployToWrite(t, version) == DeployToWrite(s, version)
  {
    assert AccessToWrite(t, version) == AccessToWrite(s, version);
    hide AccessToWrite;
  }

  lemma WorkStaysSettled(s: Store, t: Store)
    requires s.ironic.Some? && SameWork(s, t)
    ensures Settled(t) == Settled(s) && NetworkSettled(t) == NetworkSettled(s)
  {
    hide Grown;
  }

  lemma RequestConverges(s: Store, v: ParsedVersion, input: Input)
    requires s.ironic.Some? && Working(input) && NotRefused(s, v)
    ensures var r := RequestVersion(s, v, input);
      && r.Go? && SameWork(s, r.store) && r.store.secrets == s.secrets
      && VersionToRecord(r.store, v.ToString()) == 0
      && r.store.ironic.value.finalizer == s.ironic.value.finalizer
      && (VersionToRecord(s, v.ToString()) == 0 ==> r.store == s)
  {
    hide ParseVersion, Complain, Announce, Grown;
    GrownReflexive(s.secrets);
    AnnounceWorks(s, v.ToString(), input);
  }

  lemma AnnounceWorks(s: Store, version: string, input: Input)
    requires s.ironic.Some? && Working(input)
    ensures var r := Announce(s, version, input);
      && r.Go?
      && r.store == s.(ironic := r.store.ironic, journal := r.store.journal)
      && r.store.ironic.Some?
      && r.store.ironic.value == s.ironic.value.(status := r.store.ironic.value.status)
      && r.store.ironic.value.status.requested == version
      && r.store.ironic.value.status.installed == s.ironic.value.status.installed
  {
  }

  lemma GrownReflexive(secrets: Secrets)
    ensures Grown(secrets, secrets)
  {
  }

  // A link that is in order is claimed, and nothing else happens.
  lemma LinkConverges(s: Store, role: Role, name: string, input: Input)
    requires s.ironic.Some? && Working(input) && LinkOk(s.secrets, name)
    ensures var r := LinkSecret(s, role, name, input);
      && r.Go? && r.store == s.(secrets := r.store.secrets) && Grown(s.secrets, r.store.secrets)
      && ToClaim(r.store, name) == 0
      && (ToClaim(s, name) == 0 ==> r.store == s)
  {
    hide Complain;
    assert !input.faults(ReadCache(role)).Failed() && !input.faults(ReadApi(role)).Failed();
    assert input.faults(Claim(role)).Acked?;
    var claimed := Claimed(s.secrets[name], Some(s.ironic.value.uid));
    assert Acquire(s.secrets, name, Some(s.ironic.value.uid), role, input).0 ==
      if claimed == s.secrets[name] then s.secrets else s.secrets[name := claimed];
  }

  lemma GrownTransitive(a: Secrets, b: Secrets, c: Secrets)
    requires Grown(a, b) && Grown(b, c)
    ensures Grown(a, c)
  {
  }

  lemma ReferenceConverges(s: Store, role: Role, reference: Option<Reference>, input: Input)
    requires s.ironic.Some? && Working(input) && ReferenceOk(s, reference)
    ensures var r := LinkReference(s, role, reference, input);
      && r.Go? && r.store == s.(secrets := r.store.secrets) && Grown(s.secrets, r.store.secrets)
      && ReferenceToClaim(r.store, reference) == 0
      && (ReferenceToClaim(s, reference) == 0 ==> r.store == s)
  {
    hide Complain, LinkSecret;
    if reference.Some? && reference.value.kind.SecretKind? {
      LinkConverges(s, role, reference.value.name, input);
    } else if reference.Some? && reference.value.kind.ConfigMapKind? {
      AcquireWorks(s.configMaps, reference.value.name, role, input);
    }
  }

  lemma CertificateConverges(s: Store, input: Input)
    requires s.ironic.Some? && Working(input)
    requires s.ironic.value.spec.certificate != "" ==> LinkOk(s.secrets, s.ironic.value.spec.certificate)
    ensures var r := LinkCertificate(s, input);
      && r.Go? && r.store == s.(secrets := r.store.secrets) && Grown(s.secrets, r.store.secrets)
      && CertificateToClaim(r.store) == 0
      && (CertificateToClaim(s) == 0 ==> r.store == s)
  {
    hide LinkSecret;
    if s.ironic.value.spec.certificate != "" {
      LinkConverges(s, Certificate, s.ironic.value.spec.certificate, input);
    }
  }

  // What was claimed and in order stays so as secrets grow.
  lemma GrownKeepsLinks(s: Store, t: Store)
    requires s.ironic.Some? && t == s.(secrets := t.secrets) && Grown(s.secrets, t.secrets)
    ensures forall name :: ToClaim(t, name) <= ToClaim(s, name)
    ensures forall name | LinkOk(s.secrets, name) :: LinkOk(t.secrets, name)
    ensures forall reference | ReferenceOk(s, reference) :: ReferenceOk(t, reference)
  {
    forall reference | ReferenceOk(s, reference) ensures ReferenceOk(t, reference) {
      if reference.Some? && reference.value.kind.SecretKind? {
        assert LinkOk(s.secrets, reference.value.name);
      }
    }
  }

  lemma LinkAllConverges(s: Store, input: Input)
    requires s.ironic.Some? && Working(input)
    requires s.ironic.value.spec.certificate != "" ==> LinkOk(s.secrets, s.ironic.value.spec.certificate)
    requires ReferenceOk(s, s.ironic.value.spec.bmcCA) && ReferenceOk(s, s.ironic.value.spec.trustedCA)
    requires s.ironic.value.spec.apiCredentials != "" ==> ToClaim(s, s.ironic.value.spec.apiCredentials) == 0
    ensures var r := LinkAll(s, input);
      && r.Go? && r.store == s.(secrets := r.store.secrets) && Grown(s.secrets, r.store.secrets)
      && LinksToClaim(r.store) == 0
      && (LinksToClaim(s) == 0 ==> r.store == s)
  {
    hide LinkSecret, LinkReference, LinkCertificate, ToClaim, Grown, ReferenceOk, LinkOk, Working;
    var spec := s.ironic.value.spec;
    CertificateConverges(s, input);
    var t := LinkCertificate(s, input).store;
    GrownKeepsLinks(s, t);
    ReferenceConverges(t, BmcCA, spec.bmcCA, input);
    var u := LinkReference(t, BmcCA, spec.bmcCA, input).store;
    GrownKeepsLinks(t, u);
    ReferenceConverges(u, TrustedCA, spec.trustedCA, input);
    var w := LinkReference(u, TrustedCA, spec.trustedCA, input).store;
    GrownKeepsLinks(u, w);
    GrownTransitive(s.secrets, t.secrets, u.secrets);
    GrownTransitive(s.secrets, u.secrets, w.secrets);
    assert LinkAll(s, input) == Go(w) by {
      LinkAllInSteps(s, input);
    }
  }

  function LinkCertificate(s: Store, input: Input): Flow
    requires s.ironic.Some?
  {
    var name := s.ironic.value.spec.certificate;
    if name == "" then Go(s) else LinkSecret(s, Certificate, name, input)
  }

  lemma LinkAllInSteps(s: Store, input: Input)
    requires s.ironic.Some? && LinkCertificate(s, input).Go?
    ensures var t := LinkCertificate(s, input).store;
      var spec := s.ironic.value.spec;
      && t.ironic == s.ironic
      && (LinkReference(t, BmcCA, spec.bmcCA, input).Go? ==>
            LinkAll(s, input)
              == LinkReference(LinkReference(t, BmcCA, spec.bmcCA, input).store, TrustedCA, spec.trustedCA, input))
  {
    hide LinkSecret, LinkReference;
  }

  // The API credentials, once they are named and their htpasswd is up to date.
  lemma CredentialsConverge(s: Store, input: Input)
    requires s.ironic.Some? && Working(input) && CredentialsOk(s, input.crypt)
    requires s.ironic.value.spec.apiCredentials != "" && HtpasswdToWrite(s, input.crypt) == 0
    ensures var r := EnsureApiSecret(s, input);
      && r.Go? && r.store == s.(secrets := r.store.secrets) && Grown(s.secrets, r.store.secrets)
      && ToClaim(r.store, s.ironic.value.spec.apiCredentials) == 0
      && (ToClaim(s, s.ironic.value.spec.apiCredentials) == 0 ==> r.store == s)
  {
    hide LinkSecret, Complain, SecretNeedsUpdating;
    LinkConverges(s, ApiCredentials, s.ironic.value.spec.apiCredentials, input);
  }

  lemma PrepareConverges(s: Store, v: ParsedVersion, input: Input)
    requires Working(input) && Accepted(s, v, input)
    requires s.ironic.value.spec.apiCredentials != "" && HtpasswdToWrite(s, input.crypt) == 0
    ensures var r := Prepare(s, v, input);
      var version := v.ToString();
      && r.Go? && SameWork(s, r.store) && r.store.ironic.value.finalizer == s.ironic.value.finalizer
      && VersionToRecord(r.store, version) == 0 && LinksToClaim(r.store) == 0
      && (VersionToRecord(s, version) == 0 && LinksToClaim(s) == 0 ==> r.store == s)
  {
    hide RequestVersion, EnsureApiSecret, LinkAll, Grown, LinkOk, ToClaim, ReferenceOk, Working;
    var name := s.ironic.value.spec.apiCredentials;
    RequestConverges(s, v, input);
    var a := RequestVersion(s, v, input).store;
    ClaimsUntouched(s, a);
    CredentialsConverge(a, input);
    var b := EnsureApiSecret(a, input).store;
    GrownKeepsLinks(a, b);
    LinkAllConverges(b, input);
    var c := LinkAll(b, input).store;
    GrownTransitive(a.secrets, b.secrets, c.secrets);
  }

  lemma ClaimsUntouched(s: Store, t: Store)
    requires s.ironic.Some? && SameSpec(s, t) && t.secrets == s.secrets && t.configMaps == s.configMaps
    ensures forall name :: ToClaim(t, name) == ToClaim(s, name)
    ensures forall reference :: ReferenceOk(t, reference) == ReferenceOk(s, reference)
  {
  }

  /* ---- Whole reconciles ---- */

  // One reconcile: never more to do. Once the cluster has settled, less to do,
  // or everything is done: the status says so, and if it did so before, the
  // reconcile changes nothing and asks for no other. As long as there is
  // something left, it does ask for another one.
  ghost predicate StepConverges(s: Store, v: ParsedVersion, input: Input) {
    && s.ironic.Some?
    && Accepted(Reconcile(s, input).store, v, input)
    && FlowConverges(s, Reconcile(s, input), v.ToString(), input.crypt)
  }

  ghost predicate FlowConverges(s: Store, flow: Flow, version: string, crypt: Crypt)
    requires s.ironic.Some? && flow.store.ironic.Some?
  {
    var before, after := Work(s, version, crypt), Work(flow.store, version, crypt);
    && after <= before
    && (Settled(s) && NetworkSettled(s) ==>
          && flow.Stop?
          && (flow.requeue || (after == 0 && Reported(flow.store, version)))
          && Fewer(before, after,
                   Reported(flow.store, version) && (Reported(s, version) ==> flow == Stop(s, false, false))))
  }

  // Every secret that the user labelled is still there, and still the user's.
  ghost predicate Keeps(a: Secrets, b: Secrets) {
    forall name | LinkOk(a, name) :: LinkOk(b, name)
  }

  lemma StaysAccepted(s: Store, t: Store, v: ParsedVersion, input: Input)
    requires Accepted(s, v, input) && t.ironic.Some? && t.configMaps == s.configMaps && Keeps(s.secrets, t.secrets)
    requires var i, j := s.ironic.value, t.ironic.value;
      && j.spec == i.spec.(apiCredentials := j.spec.apiCredentials) && j.deleting == i.deleting && j.name == i.name
    requires NotRefused(t, v) && CredentialsOk(t, input.crypt) && JobsCurrent(t, v.ToString())
    requires SwitchSecretOk(t, SwitchConfig) && SwitchSecretOk(t, SwitchCredentials)
    ensures Accepted(t, v, input)
  {
    hide LinkOk, SwitchSecretOk, NotRefused, CredentialsOk;
    assert t.ironic.value.spec.(apiCredentials := "") == s.ironic.value.spec.(apiCredentials := "");
    assert forall name :: t.ironic.value.spec.(apiCredentials := name) == s.ironic.value.spec.(apiCredentials := name);
    assert forall reference :: ReferenceOk(s, reference) ==> ReferenceOk(t, reference);
  }

  lemma InstallKeepsSecrets(s: Store, input: Input)
    requires s.ironic.Some? && Working(input)
    requires SwitchSecretOk(s, SwitchConfig) && SwitchSecretOk(s, SwitchCredentials)
    ensures var after := EnsureNetworkingSwitchSecrets(s.secrets, s.ironic.value, input).0;
      var t := s.(secrets := after);
      && Keeps(s.secrets, after)
      && (forall name | LinkOk(s.secrets, name) :: after[name] == s.secrets[name])
      && SwitchSecretOk(t, SwitchConfig) && SwitchSecretOk(t, SwitchCredentials)
  {
    hide EnsureNetworkingSwitchSecrets;
    SwitchSecretsRespectTheUser(s.secrets, s.ironic.value, input);
    if s.ironic.value.spec.NetworkingEnabled() {
      SwitchesEnsured(s, input);
    }
  }

  // Installing, once everything is prepared.
  lemma InstallStep(s: Store, v: ParsedVersion, input: Input)
    requires Working(input) && CacheComplete(s, input)
    requires Accepted(s, v, input) && s.ironic.value.finalizer && s.ironic.value.spec.apiCredentials != ""
    requires HtpasswdToWrite(s, input.crypt) == 0 && LinksToClaim(s) == 0
    requires VersionToRecord(s, v.ToString()) == 0
    ensures var flow := Install(s, v, input);
      var t := flow.store;
      && Accepted(t, v, input)
      && t.ironic.value.finalizer
      && Work(t, v.ToString(), input.crypt) <= Work(s, v.ToString(), input.crypt)
      && (Settled(s) && NetworkSettled(s) ==>
            && (flow.requeue || (Work(t, v.ToString(), input.crypt) == 0 && Reported(t, v.ToString())))
            && Fewer(Work(s, v.ToString(), input.crypt), Work(t, v.ToString(), input.crypt),
                     Reported(t, v.ToString()) && (Reported(s, v.ToString()) ==> flow == Stop(s, false, false))))
  {
    var version := v.ToString();
    var flow := Install(s, v, input);
    var t := flow.store;
    InstallConverges(s, v, input) by {
      assert s.ironic.value.spec.(apiCredentials := s.ironic.value.spec.apiCredentials) == s.ironic.value.spec;
    }
    InstallKeepsSecrets(s, input);
    KeptSecretsNeedNothing(s, t, v, input);
    InstalledStaysAccepted(s, t, v, input);
    hide Install, Accepted, InstallToWrite, Working, StatusMoves, HtpasswdToWrite, LinksToClaim, Settled;
    hide NetworkSettled, Reported;
    assert CredentialsToName(t) == 0 && VersionToRecord(t, version) == 0 && t.ironic.value.finalizer by {
      StatusFacts(s, t, version);
    }
  }

  lemma StatusFacts(s: Store, t: Store, version: string)
    requires s.ironic.Some? && StatusMoves(s, t, version)
    ensures t.ironic.value.finalizer == s.ironic.value.finalizer
    ensures CredentialsToName(t) == CredentialsToName(s)
    ensures VersionToRecord(t, version) <= VersionToRecord(s, version)
  {
  }

  lemma InstalledStaysAccepted(s: Store, t: Store, v: ParsedVersion, input: Input)
    requires Accepted(s, v, input) && s.ironic.value.spec.apiCredentials != ""
    requires StatusMoves(s, t, v.ToString()) && t.configMaps == s.configMaps && JobsCurrent(t, v.ToString())
    requires Keeps(s.secrets, t.secrets)
    requires forall name | LinkOk(s.secrets, name) :: t.secrets[name] == s.secrets[name]
    requires var u := s.(secrets := t.secrets); SwitchSecretOk(u, SwitchConfig) && SwitchSecretOk(u, SwitchCredentials)
    ensures Accepted(t, v, input)
  {
    hide ParseVersion, JobsCurrent;
    StaysAccepted(s, t, v, input);
  }

  lemma KeptSecretsNeedNothing(s: Store, t: Store, v: ParsedVersion, input: Input)
    requires Accepted(s, v, input) && s.ironic.value.spec.apiCredentials != ""
    requires StatusMoves(s, t, v.ToString())
    requires Keeps(s.secrets, t.secrets)
    requires forall name | LinkOk(s.secrets, name) :: t.secrets[name] == s.secrets[name]
    ensures HtpasswdToWrite(t, input.crypt) == HtpasswdToWrite(s, input.crypt)
    ensures LinksToClaim(t) == LinksToClaim(s)
  {
    hide NotRefused, CredentialsGood, SecretNeedsUpdating, VersionTooOldFor, EffectiveVersion;
    var spec := s.ironic.value.spec;
    assert LinkOk(s.secrets, spec.apiCredentials);
    if spec.certificate != "" {
      assert LinkOk(s.secrets, spec.certificate);
    }
    SameClaims(s, t, spec.bmcCA);
    SameClaims(s, t, spec.trustedCA);
  }

  lemma SameClaims(s: Store, t: Store, reference: Option<Reference>)
    requires s.ironic.Some? && SameSpec(s, t) && ReferenceOk(s, reference)
    requires Keeps(s.secrets, t.secrets)
    requires forall name | LinkOk(s.secrets, name) :: t.secrets[name] == s.secrets[name]
    ensures ReferenceToClaim(t, reference) == ReferenceToClaim(s, reference)
  {
    if reference.Some? && reference.value.kind.SecretKind? {
      assert LinkOk(s.secrets, reference.value.name);
    }
  }

  lemma PreparedStaysAccepted(s: Store, t: Store, v: ParsedVersion, input: Input)
    requires Accepted(s, v, input) && SameWork(s, t) && VersionToRecord(t, v.ToString()) == 0
    ensures Accepted(t, v, input)
    ensures CacheComplete(s, input) ==> CacheComplete(t, input)
    ensures HtpasswdToWrite(t, input.crypt) == HtpasswdToWrite(s, input.crypt)
  {
    hide ParseVersion, SecretNeedsUpdating, NormalizeSecretValue, CheckValidUser;
    assert Keeps(s.secrets, t.secrets);
    assert CredentialsOk(t, input.crypt);
    JobsStayCurrent(s, t, v.ToString());
    StaysAccepted(s, t, v, input);
  }

  // The reconcile of an object with its finalizer and credentials in place.
  lemma MainStep(s: Store, v: ParsedVersion, input: Input)
    requires Working(input) && CacheComplete(s, input)
    requires Accepted(s, v, input) && s.ironic.value.finalizer && s.ironic.value.spec.apiCredentials != ""
    requires HtpasswdToWrite(s, input.crypt) == 0
    ensures StepConverges(s, v, input)
  {
    hide Prepare, Install, Grown, InstallToWrite, Settled, NetworkSettled, CacheComplete, HtpasswdToWrite, LinksToClaim;
    var version := v.ToString();
    PrepareConverges(s, v, input);
    var c := Prepare(s, v, input).store;
    PreparedStaysAccepted(s, c, v, input);
    WorkUntouched(s, c, version);
    WorkStaysSettled(s, c);
    InstallStep(c, v, input);
    assert Reconcile(s, input) == Install(c, v, input);
    WorkOfPrepared(s, c, version, input.crypt);
  }

  lemma WorkOfPrepared(s: Store, c: Store, version: string, crypt: Crypt)
    requires s.ironic.Some? && SameWork(s, c) && c.ironic.value.finalizer == s.ironic.value.finalizer
    requires LinksToClaim(c) == 0 && VersionToRecord(c, version) == 0
    requires VersionToRecord(s, version) == 0 && LinksToClaim(s) == 0 ==> c == s
    requires InstallToWrite(c, version) == InstallToWrite(s, version)
    requires HtpasswdToWrite(c, crypt) == HtpasswdToWrite(s, crypt)
    ensures c == s || Work(c, version, crypt) < Work(s, version, crypt)
  {
    hide InstallToWrite, HtpasswdToWrite, LinksToClaim;
    assert CredentialsToName(c) == CredentialsToName(s);
  }

  lemma FinalizerStep(s: Store, v: ParsedVersion, input: Input)
    requires Working(input) && Accepted(s, v, input) && !s.ironic.value.finalizer
    ensures StepConverges(s, v, input)
  {
    hide InstallToWrite, ParseVersion, VersionTooOldFor, SecretNeedsUpdating, CredentialsGood;
    var t := s.(ironic := Some(s.ironic.value.(finalizer := true)));
    assert Reconcile(s, input) == Stop(t, true, false);
    JobsStayCurrent(s, t, v.ToString());
    StaysAccepted(s, t, v, input);
    FinalizerWork(s, t, v.ToString(), input.crypt);
  }

  lemma FinalizerWork(s: Store, t: Store, version: string, crypt: Crypt)
    requires s.ironic.Some? && !s.ironic.value.finalizer
    requires t == s.(ironic := Some(s.ironic.value.(finalizer := true)))
    ensures Work(t, version, crypt) + 1 == Work(s, version, crypt)
  {
    hide InstallToWrite;
    WorkUntouched(s, t, version);
    ClaimsSame(s, t, crypt);
  }

  lemma ClaimsSame(s: Store, t: Store, crypt: Crypt)
    requires s.ironic.Some? && t == s.(ironic := t.ironic) && t.ironic.Some?
    requires t.ironic.value.spec == s.ironic.value.spec && t.ironic.value.uid == s.ironic.value.uid
    ensures LinksToClaim(t) == LinksToClaim(s)
    ensures HtpasswdToWrite(t, crypt) == HtpasswdToWrite(s, crypt)
  {
    hide SecretNeedsUpdating;
    assert forall name :: ToClaim(t, name) == ToClaim(s, name);
    var spec := s.ironic.value.spec;
    assert ReferenceToClaim(t, spec.bmcCA) == ReferenceToClaim(s, spec.bmcCA);
    assert ReferenceToClaim(t, spec.trustedCA) == ReferenceToClaim(s, spec.trustedCA);
  }

  /* ---- Credentials that need writing ---- */

  // A due update succeeds, and leaves good credentials that are up to date.
  lemma GoodCredentialsUpdate(data: Data, crypt: Crypt, salt: string)
    requires CredentialsGood(data, crypt) && crypt.Lawful() && SecretNeedsUpdating(data, crypt)
    ensures Updated(data, crypt, salt).Changed?
    ensures var after := Updated(data, crypt, salt).data;
      && CredentialsGood(after, crypt) && !SecretNeedsUpdating(after, crypt)
      && forall key | key != HTPASSWD :: (key in after <==> key in data) && (key in data ==> after[key] == data[key])
  {
    UpdateSettles(data, crypt, salt, salt);
  }

  // The same secrets with the same labels, although data may have changed.
  ghost predicate Evolved(a: Secrets, b: Secrets) {
    && (forall name | name in b :: name in a)
    && (forall name | name in a ::
          && name in b
          && b[name].environment == a[name].environment && b[name].managed == a[name].managed)
    && (forall name, owner | name in a && owner in a[name].owners :: owner in b[name].owners)
  }

  lemma ApiSecretUpdated(s: Store, input: Input)
    requires s.ironic.Some? && Working(input) && CredentialsOk(s, input.crypt) && input.crypt.Lawful()
    requires HtpasswdToWrite(s, input.crypt) == 1
    ensures var r := EnsureApiSecret(s, input);
      && r == Stop(r.store, true, false) && r.store == s.(secrets := r.store.secrets)
      && Evolved(s.secrets, r.store.secrets)
      && CredentialsOk(r.store, input.crypt) && HtpasswdToWrite(r.store, input.crypt) == 0
  {
    hide LinkSecret, Complain, SecretNeedsUpdating, Updated, CredentialsGood, Crypt.Lawful;
    var name := s.ironic.value.spec.apiCredentials;
    LinkConverges(s, ApiCredentials, name, input);
    var t := LinkSecret(s, ApiCredentials, name, input).store;
    GoodCredentialsUpdate(s.secrets[name].data, input.crypt, input.salt);
    var data := Updated(s.secrets[name].data, input.crypt, input.salt).data;
    assert EnsureApiSecret(s, input)
        == Stop(t.(secrets := t.secrets[name := t.secrets[name].(data := data)]), true, false);
  }

  // The object may get another status and generation, but no other version
  // is installed; linked secrets evolve.
  ghost predicate SameWorkButData(s: Store, t: Store)
    requires s.ironic.Some?
  {
    && t.ironic.Some?
    && t.ironic.value == s.ironic.value.(status := t.ironic.value.status)
    && t.ironic.value.status.installed == s.ironic.value.status.installed
    && t == s.(ironic := t.ironic, secrets := t.secrets, journal := t.journal)
    && Evolved(s.secrets, t.secrets)
  }

  // New data can show up in the workload and in the networking service.
  lemma DataMattersLittle(s: Store, t: Store, version: string)
    requires s.ironic.Some? && SameWorkButData(s, t)
    ensures InstallToWrite(t, version) <= InstallToWrite(s, version) + 3
  {
    hide NetworkToWrite, WorkloadToWrite;
    assert SwitchesToWrite(t) == SwitchesToWrite(s);
    assert AccessToWrite(t, version) == AccessToWrite(s, version);
    assert DeployToWrite(t, version) <= DeployToWrite(s, version) + 1;
  }

  lemma EvolvedClaims(s: Store, t: Store)
    requires s.ironic.Some? && SameWorkButData(s, t)
    ensures LinksToClaim(t) <= LinksToClaim(s)
    ensures Keeps(s.secrets, t.secrets)
    ensures forall role: Role | (role.SwitchConfig? || role.SwitchCredentials?) && SwitchSecretOk(s, role) ::
      SwitchSecretOk(t, role)
  {
    assert forall name :: ToClaim(t, name) <= ToClaim(s, name);
    hide ToClaim;
    var spec := s.ironic.value.spec;
    assert ReferenceToClaim(t, spec.bmcCA) <= ReferenceToClaim(s, spec.bmcCA);
    assert ReferenceToClaim(t, spec.trustedCA) <= ReferenceToClaim(s, spec.trustedCA);
  }

  lemma HtpasswdStep(s: Store, v: ParsedVersion, input: Input)
    requires Working(input) && Accepted(s, v, input) && input.crypt.Lawful()
    requires s.ironic.value.finalizer && HtpasswdToWrite(s, input.crypt) == 1
    ensures StepConverges(s, v, input)
  {
    hide RequestVersion, EnsureApiSecret, InstallToWrite, ParseVersion, VersionTooOldFor, LinkAll, Install;
    hide LinksToClaim, SwitchSecretOk, Working, HtpasswdToWrite, CredentialsOk, Evolved;
    var version := v.ToString();
    RequestConverges(s, v, input);
    var a := RequestVersion(s, v, input).store;
    assert CredentialsOk(a, input.crypt) && HtpasswdToWrite(a, input.crypt) == 1 by {
      CredentialsUntouched(s, a, input.crypt);
    }
    ApiSecretUpdated(a, input);
    var t := EnsureApiSecret(a, input).store;
    assert Reconcile(s, input) == Stop(t, true, false) by {
      StopsAtCredentials(s, v, input);
    }
    assert SameWorkButData(s, t);
    EvolvedClaims(s, t);
    DataMattersLittle(s, t, version);
    JobsStayCurrent(s, t, v.ToString());
    StaysAccepted(s, t, v, input);
  }

  lemma CredentialsUntouched(s: Store, t: Store, crypt: Crypt)
    requires s.ironic.Some? && SameSpec(s, t) && t.secrets == s.secrets
    ensures CredentialsOk(t, crypt) == CredentialsOk(s, crypt)
    ensures HtpasswdToWrite(t, crypt) == HtpasswdToWrite(s, crypt)
  {
  }

  lemma StopsAtCredentials(s: Store, v: ParsedVersion, input: Input)
    requires Accepted(s, v, input) && s.ironic.value.finalizer && Working(input)
    requires RequestVersion(s, v, input).Go?
    requires EnsureApiSecret(RequestVersion(s, v, input).store, input).Stop?
    ensures Reconcile(s, input) == EnsureApiSecret(RequestVersion(s, v, input).store, input)
  {
    hide RequestVersion, EnsureApiSecret, LinkAll, Install, ParseVersion;
  }

  lemma ApiSecretCreated(s: Store, input: Input)
    requires s.ironic.Some? && Working(input) && Generates(s, input) && input.crypt.Lawful()
    requires s.ironic.value.spec.apiCredentials == ""
    ensures var r := EnsureApiSecret(s, input);
      var t := r.store;
      && r == Stop(t, true, false)
      && t.ironic == Some(s.ironic.value.(spec := s.ironic.value.spec.(apiCredentials := input.freshName),
                                          generation := s.ironic.value.generation + 1))
      && t == s.(ironic := t.ironic, secrets := t.secrets)
      && t.secrets == s.secrets[input.freshName := t.secrets[input.freshName]]
      && t.secrets[input.freshName].environment && s.ironic.value.uid in t.secrets[input.freshName].owners
      && CredentialsOk(t, input.crypt) && HtpasswdToWrite(t, input.crypt) == 0
  {
    hide Complain, SecretNeedsUpdating, Updated, CredentialsGood, Crypt.Lawful;
    var data := map[USERNAME := s.ironic.value.name, PASSWORD := input.password.value];
    assert SecretNeedsUpdating(data, input.crypt) by {
      FreshCredentialsNeedUpdating(data, input.crypt);
    }
    GoodCredentialsUpdate(data, input.crypt, input.salt);
  }

  lemma FreshCredentialsNeedUpdating(data: Data, crypt: Crypt)
    requires HTPASSWD !in data
    ensures SecretNeedsUpdating(data, crypt)
  {
  }

  lemma NamingStep(s: Store, v: ParsedVersion, input: Input)
    requires Working(input) && Accepted(s, v, input) && input.crypt.Lawful() && Generates(s, input)
    requires s.ironic.value.finalizer && s.ironic.value.spec.apiCredentials == ""
    ensures StepConverges(s, v, input)
  {
    hide RequestVersion, EnsureApiSecret, InstallToWrite, ParseVersion, VersionTooOldFor, LinkAll, Install;
    hide LinksToClaim, SwitchSecretOk, Working, HtpasswdToWrite, CredentialsOk, CredentialsGood, Evolved;
    var version := v.ToString();
    RequestConverges(s, v, input);
    var a := RequestVersion(s, v, input).store;
    ApiSecretCreated(a, input);
    var t := EnsureApiSecret(a, input).store;
    assert Reconcile(s, input) == Stop(t, true, false) by {
      StopsAtCredentials(s, v, input);
    }
    NamedClaims(s, t, v, input);
    assert NotRefused(t, v);
    JobsStayCurrent(s, t, v.ToString());
    StaysAccepted(s, t, v, input);
  }

  lemma NamedClaims(s: Store, t: Store, v: ParsedVersion, input: Input)
    requires Accepted(s, v, input) && s.ironic.value.spec.apiCredentials == "" && input.freshName !in s.secrets
    requires t.ironic.Some? && t.ironic.value.uid == s.ironic.value.uid && t.ironic.value.name == s.ironic.value.name
    requires t.ironic.value.spec == s.ironic.value.spec.(apiCredentials := input.freshName)
    requires input.freshName in t.secrets && t.secrets == s.secrets[input.freshName := t.secrets[input.freshName]]
    requires t.secrets[input.freshName].environment && s.ironic.value.uid in t.secrets[input.freshName].owners
    ensures LinksToClaim(t) == LinksToClaim(s)
    ensures Keeps(s.secrets, t.secrets)
    ensures SwitchSecretOk(t, SwitchConfig) && SwitchSecretOk(t, SwitchCredentials)
  {
    hide ParseVersion, VersionTooOldFor;
    var spec := s.ironic.value.spec;
    assert ReferenceToClaim(t, spec.bmcCA) == ReferenceToClaim(s, spec.bmcCA);
    assert ReferenceToClaim(t, spec.trustedCA) == ReferenceToClaim(s, spec.trustedCA);
  }

  lemma EveryStepConverges(s: Store, v: ParsedVersion, input: Input)
    requires Working(input) && input.crypt.Lawful() && CacheComplete(s, input) && Accepted(s, v, input)
    requires s.ironic.value.spec.apiCredentials == "" ==> Generates(s, input)
    ensures StepConverges(s, v, input)
  {
    assert s.ironic.Some?;
    hide Accepted, StepConverges;
    if !s.ironic.value.finalizer {
      FinalizerStep(s, v, input);
    } else if s.ironic.value.spec.apiCredentials == "" {
      NamingStep(s, v, input);
    } else if HtpasswdToWrite(s, input.crypt) == 0 {
      MainStep(s, v, input);
    } else {
      HtpasswdStep(s, v, input);
    }
  }

  /* ---- Histories ---- */

  // What the cluster does in its own time: jobs, workloads and addresses make
  // progress, or fall back; nobody writes what they are to do.
  ghost predicate Busy(s: Store, t: Store) {
    && t == s.(jobs := t.jobs, deployment := t.deployment, daemonSet := t.daemonSet, service := t.service,
               networkDeployment := t.networkDeployment)
    && (forall key :: key in t.jobs <==> key in s.jobs)
    && (forall key | key in s.jobs :: t.jobs[key].template == s.jobs[key].template)
    && (t.deployment.Some? <==> s.deployment.Some?)
    && (t.deployment.Some? ==> t.deployment.value == s.deployment.value.(status := t.deployment.value.status))
    && (t.daemonSet.Some? <==> s.daemonSet.Some?)
    && (t.daemonSet.Some? ==> t.daemonSet.value == s.daemonSet.value.(status := t.daemonSet.value.status))
    && (t.service.Some? <==> s.service.Some?)
    && (t.service.Some? ==> t.service.value == s.service.value.(clusterIPs := t.service.value.clusterIPs))
    && (t.networkDeployment.Some? <==> s.networkDeployment.Some?)
    && (t.networkDeployment.Some? ==> t.networkDeployment.value.template == s.networkDeployment.value.template)
  }

  lemma BusyLeavesTheWork(s: Store, t: Store, v: ParsedVersion, input: Input)
    requires Accepted(s, v, input) && Busy(s, t)
    ensures Accepted(t, v, input) && Work(t, v.ToString(), input.crypt) == Work(s, v.ToString(), input.crypt)
  {
    hide ParseVersion, VersionTooOldFor, SecretNeedsUpdating, CredentialsGood;
    StaysAccepted(s, t, v, input);
    BusyInstall(s, t, v.ToString());
    hide InstallToWrite, Accepted, Busy;
    assert LinksToClaim(t) == LinksToClaim(s) by {
      ClaimsUntouched(s, t);
    }
    CredentialsUntouched(s, t, input.crypt);
  }

  lemma BusyInstall(s: Store, t: Store, version: string)
    requires s.ironic.Some? && Busy(s, t)
    ensures InstallToWrite(t, version) == InstallToWrite(s, version)
    ensures t.ironic == s.ironic && t.secrets == s.secrets && t.configMaps == s.configMaps
  {
    BusyNetworking(s, t, version);
    BusyDeploy(s, t, version);
    hide SwitchesToWrite, NetworkToWrite, DeployToWrite;
  }

  lemma BusyNetworking(s: Store, t: Store, version: string)
    requires s.ironic.Some? && Busy(s, t)
    ensures SwitchesToWrite(t) == SwitchesToWrite(s) && NetworkToWrite(t, version) == NetworkToWrite(s, version)
  {
  }

  lemma BusyDeploy(s: Store, t: Store, version: string)
    requires s.ironic.Some? && Busy(s, t)
    ensures DeployToWrite(t, version) == DeployToWrite(s, version)
  {
    assert AccessToWrite(t, version) == AccessToWrite(s, version);
    hide AccessToWrite;
  }

  // What each reconcile of a history gets from outside; only the random data,
  // the cache and the salt may differ.
  ghost predicate Supports(s: Store, input: Input, first: Input) {
    && Working(input) && CacheComplete(s, input) && input.crypt.Lawful()
    && input.crypt == first.crypt && input.valid == first.valid && input.defaultVersion == first.defaultVersion
    && (s.ironic.Some? && s.ironic.value.spec.apiCredentials == "" ==> Generates(s, input))
  }

  ghost predicate Follows(s: Store, move: Move, t: Store, first: Input) {
    match move
    case Outside => Busy(s, t)
    case Reconciled(input) => Supports(s, input, first) && t == Reconcile(s, input).store
  }

  // Reconciles, whenever they come, with the cluster at work in between.
  ghost predicate History(states: seq<Store>, moves: seq<Move>, first: Input) {
    && |states| == |moves| + 1
    && forall i | 0 <= i < |moves| :: Follows(states[i], moves[i], states[i + 1], first)
  }

  ghost predicate SettledReconcile(s: Store, move: Move) {
    move.Reconciled? && Settled(s) && NetworkSettled(s)
  }

  // How many of the first n moves reconciled after the cluster had settled.
  ghost function SettledReconciles(states: seq<Store>, moves: seq<Move>, n: nat): nat
    requires n <= |moves| <= |states|
  {
    if n == 0 then 0
    else SettledReconciles(states, moves, n - 1) + Flag(SettledReconcile(states[n - 1], moves[n - 1]))
  }

  lemma SameSettings(s: Store, v: ParsedVersion, input: Input, other: Input)
    requires Accepted(s, v, input)
    requires other.crypt == input.crypt && other.valid == input.valid && other.defaultVersion == input.defaultVersion
    ensures Accepted(s, v, other) && s.ironic.Some?
  {
    hide ParseVersion, VersionTooOldFor, CredentialsOk, ReferenceOk;
  }

  lemma MoveConverges(s: Store, move: Move, t: Store, v: ParsedVersion, first: Input)
    requires Accepted(s, v, first) && Follows(s, move, t, first)
    ensures Accepted(t, v, first)
    ensures Work(t, v.ToString(), first.crypt) <= Work(s, v.ToString(), first.crypt)
    ensures move.Reconciled? ==> StepConverges(s, v, move.input)
  {
    hide Accepted, Reconcile, Settled, NetworkSettled, Work, Busy;
    match move
    case Outside =>
      BusyLeavesTheWork(s, t, v, first);
    case Reconciled(input) =>
      SameSettings(s, v, first, input);
      EveryStepConverges(s, v, input);
      SameSettings(t, v, input, first);
  }

  // One move takes off what it should.
  lemma MoveLowersWork(s: Store, move: Move, t: Store, v: ParsedVersion, first: Input)
    requires Accepted(s, v, first) && s.ironic.Some? && Follows(s, move, t, first)
    ensures Accepted(t, v, first) && t.ironic.Some?
    ensures var before, after := Work(s, v.ToString(), first.crypt), Work(t, v.ToString(), first.crypt);
      after <= before && (after == 0 || after + Flag(SettledReconcile(s, move)) <= before)
  {
    MoveConverges(s, move, t, v, first);
    assert t.ironic.Some?;
    ReconciledWith(s, move, t, first);
    hide Reconcile, Settled, NetworkSettled, Work, Follows, Accepted, Reported, Version.ToString;
  }

  // The work that is left shrinks with every settled reconcile.
  lemma {:induction false} HistoryConverges(
    states: seq<Store>, moves: seq<Move>, first: Input, v: ParsedVersion, n: nat)
    requires History(states, moves, first) && n <= |moves| && Accepted(states[0], v, first)
    ensures Accepted(states[n], v, first) && states[n].ironic.Some?
    ensures var left := Work(states[n], v.ToString(), first.crypt);
      left == 0 || left + SettledReconciles(states, moves, n) <= Work(states[0], v.ToString(), first.crypt)
  {
    hide Reconcile, Work, Follows, Accepted, Reported, SettledReconcile, Version.ToString;
    if n > 0 {
      HistoryConverges(states, moves, first, v, n - 1);
      MoveLowersWork(states[n - 1], moves[n - 1], states[n], v, first);
    }
  }

  lemma ReconciledWith(s: Store, move: Move, t: Store, first: Input)
    requires Follows(s, move, t, first)
    ensures move.Reconciled? ==> t == Reconcile(s, move.input).store && move.input.crypt == first.crypt
  {
    hide Reconcile, Working, CacheComplete, Generates;
  }

  // Everything that the object asks for has been written.
  ghost predicate InPlace(s: Store, version: string) {
    && s.ironic.Some?
    && s.ironic.value.finalizer && s.ironic.value.spec.apiCredentials != ""
    && AllAsked(s, version)
  }

  lemma NoWorkMeansInPlace(s: Store, version: string, crypt: Crypt)
    requires s.ironic.Some? && Work(s, version, crypt) == 0
    ensures InPlace(s, version)
  {
    assert DeployToWrite(s, version) == 0 && NetworkToWrite(s, version) == 0;
  }

  // After as many settled reconciles as there was work, and never more than
  // 33, everything is in place and stays so; every further settled reconcile
  // leaves a status that reports the requested version as installed and ready,
  // and changes nothing at all if that was so already.
  lemma ReconcilesReachAFixpoint(
    states: seq<Store>, moves: seq<Move>, first: Input, v: ParsedVersion, n: nat)
    requires History(states, moves, first) && n < |moves| && Accepted(states[0], v, first)
    requires SettledReconciles(states, moves, n) >= Work(states[0], v.ToString(), first.crypt)
    ensures Work(states[0], v.ToString(), first.crypt) <= 33
    ensures InPlace(states[n], v.ToString())
    ensures SettledReconcile(states[n], moves[n]) ==>
      var flow := Reconcile(states[n], moves[n].input);
      && flow.store == states[n + 1]
      && InPlace(flow.store, v.ToString()) && Reported(flow.store, v.ToString())
      && flow.store.ironic.value.status.Ready() && flow.store.ironic.value.status.installed == v.ToString()
      && (Reported(states[n], v.ToString()) ==> flow == Stop(states[n], false, false))
  {
    hide Accepted, Reconcile, Settled, NetworkSettled, Work, InPlace, Follows, Reported;
    var s, version := states[n], v.ToString();
    HistoryConverges(states, moves, first, v, n);
    NoWorkMeansInPlace(s, version, first.crypt);
    if SettledReconcile(s, moves[n]) {
      assert Follows(s, moves[n], states[n + 1], first);
      MoveConverges(s, moves[n], states[n + 1], v, first);
      ReconciledWith(s, moves[n], states[n + 1], first);
      HistoryConverges(states, moves, first, v, n + 1);
      NoWorkMeansInPlace(states[n + 1], version, first.crypt);
      InstalledWhenReported(states[n + 1], version);
    }
  }

  // From then on the operator is idle: of two settled reconciles, the second
  // changes nothing and asks for no other, as long as there are only settled
  // reconciles and progress of the cluster in between.
  lemma {:induction false} SettledReconcilesAreIdle(
    states: seq<Store>, moves: seq<Move>, first: Input, v: ParsedVersion, m: nat, n: nat)
    requires History(states, moves, first) && m < n < |moves| && Accepted(states[0], v, first)
    requires SettledReconciles(states, moves, m) >= Work(states[0], v.ToString(), first.crypt)
    requires SettledReconcile(states[m], moves[m])
    requires forall i | m < i <= n && moves[i].Reconciled? :: SettledReconcile(states[i], moves[i])
    ensures states[n].ironic.Some? && Reported(states[n], v.ToString())
    ensures moves[n].Reconciled? ==> Reconcile(states[n], moves[n].input) == Stop(states[n], false, false)
  {
    hide Accepted, Reconcile, Settled, NetworkSettled, Work, InPlace, Follows, Reported;
    HistoryConverges(states, moves, first, v, n);
    ReconcilesReachAFixpoint(states, moves, first, v, m);
    if m + 1 < n {
      SettledReconcilesAreIdle(states, moves, first, v, m, n - 1);
      if moves[n - 1].Reconciled? {
        SettledMoreOften(states, moves, m, n - 1);
        ReconcilesReachAFixpoint(states, moves, first, v, n - 1);
      } else {
        assert Follows(states[n - 1], moves[n - 1], states[n], first);
        BusyKeepsReports(states[n - 1], states[n], moves[n - 1], first, v.ToString());
      }
    }
    SettledMoreOften(states, moves, m, n);
    ReconcilesReachAFixpoint(states, moves, first, v, n);
  }

  lemma BusyKeepsReports(s: Store, t: Store, move: Move, first: Input, version: string)
    requires Follows(s, move, t, first) && move.Outside? && s.ironic.Some? && Reported(s, version)
    ensures t.ironic.Some? && Reported(t, version)
  {
  }

  lemma {:induction false} SettledMoreOften(states: seq<Store>, moves: seq<Move>, m: nat, n: nat)
    requires m <= n <= |moves| <= |states|
    ensures SettledReconciles(states, moves, m) <= SettledReconciles(states, moves, n)
  {
    if m < n {
      SettledMoreOften(states, moves, m, n - 1);
    }
  }
}
