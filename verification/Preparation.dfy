// What a reconcile may do before it deploys anything: record conditions and the
// requested version, link secrets, and nothing else.
module Preparation {
  import opened Options
  import opened Versions
  import opened Cluster
  import opened SecretManager
  import opened SwitchSecrets
  import opened Networking
  import opened Controller

  // A status write that reports the object as not ready and leaves the
  // installed version alone.
  ghost predicate QuietEvent(e: Event) {
    e.StatusWritten? && e.after.installed == e.before.installed && !e.after.Ready()
  }

  ghost predicate Quiet(s: Store, t: Store)
    requires s.ironic.Some?
  {
    && t.ironic.Some?
    && (var a, b := s.ironic.value, t.ironic.value;
        && b == a.(status := b.status, generation := b.generation,
                   spec := a.spec.(apiCredentials := b.spec.apiCredentials))
        && b.status.installed == a.status.installed
        && (b.status == a.status || !b.status.Ready()))
    && t == s.(ironic := t.ironic, secrets := t.secrets, journal := t.journal)
    && s.journal <= t.journal
    && forall i | |s.journal| <= i < |t.journal| :: QuietEvent(t.journal[i])
  }

  // The same without a change of the requested version.
  ghost predicate Silent(s: Store, t: Store)
    requires s.ironic.Some?
  {
    Quiet(s, t) && t.ironic.value.status.requested == s.ironic.value.status.requested
  }

  lemma QuietTransitive(s: Store, t: Store, u: Store)
    requires s.ironic.Some? && Quiet(s, t) && Quiet(t, u)
    ensures Quiet(s, u)
  {
    forall i | |s.journal| <= i < |u.journal| ensures QuietEvent(u.journal[i]) {
      if i < |t.journal| {
        assert u.journal[i] == t.journal[i];
      }
    }
  }

  lemma ComplainIsSilent(s: Store, message: Message, input: Input)
    requires s.ironic.Some?
    ensures Silent(s, Complain(s, message, input))
  {
    StatusWriteIsQuiet(s, NotReady(s.ironic.value, Failed, message), input.faults(WriteNotReady));
  }

  lemma StatusWriteIsQuiet(s: Store, status: Status, fate: Fate)
    requires s.ironic.Some?
    requires status.installed == s.ironic.value.status.installed && !status.Ready()
    ensures Quiet(s, WriteStatus(s, status, fate))
  {
    if fate.Applied() {
      var t := WriteStatus(s, status, fate);
      assert t.journal == s.journal + [StatusWritten(s.ironic.value.status, status)];
    }
  }

  lemma RequestIsQuiet(s: Store, v: ParsedVersion, input: Input)
    requires s.ironic.Some?
    ensures Quiet(s, RequestVersion(s, v, input).store)
  {
    hide ParseVersion, Complain, Announce;
    ComplainIsSilent(s, DowngradeRefused, input);
    AnnounceIsQuiet(s, v.ToString(), input);
  }

  lemma AnnounceIsQuiet(s: Store, version: string, input: Input)
    requires s.ironic.Some?
    ensures Quiet(s, Announce(s, version, input).store)
    ensures Announce(s, version, input).Go? ==>
      Announce(s, version, input).store.ironic.value.status.requested == version
  {
    var ironic := s.ironic.value.(status := s.ironic.value.status.(requested := version));
    StatusWriteIsQuiet(s, NotReady(ironic, InProgress, NewVersionRequested), input.faults(WriteRequested));
  }

  lemma LinkIsSilent(s: Store, role: Role, name: string, input: Input)
    requires s.ironic.Some?
    ensures Silent(s, LinkSecret(s, role, name, input).store)
  {
    hide Complain;
    var t := s.(secrets := Acquire(s.secrets, name, Some(s.ironic.value.uid), role, input).0);
    ComplainIsSilent(t, BadLink(role), input);
    QuietTransitive(s, t, Complain(t, BadLink(role), input));
  }

  lemma ReferenceIsSilent(s: Store, role: Role, reference: Option<Reference>, input: Input)
    requires s.ironic.Some?
    ensures Silent(s, LinkReference(s, role, reference, input).store)
  {
    hide Complain, LinkSecret;
    ComplainIsSilent(s, BadLink(role), input);
    if reference.Some? {
      LinkIsSilent(s, role, reference.value.name, input);
    }
  }

  lemma LinkAllIsSilent(s: Store, input: Input)
    requires s.ironic.Some?
    ensures Silent(s, LinkAll(s, input).store)
  {
    hide LinkSecret, LinkReference;
    var spec := s.ironic.value.spec;
    LinkIsSilent(s, Certificate, spec.certificate, input);
    var t := if spec.certificate == "" then Go(s) else LinkSecret(s, Certificate, spec.certificate, input);
    if t.Go? {
      ReferenceIsSilent(t.store, BmcCA, spec.bmcCA, input);
      var u := LinkReference(t.store, BmcCA, spec.bmcCA, input);
      QuietTransitive(s, t.store, u.store);
      if u.Go? {
        ReferenceIsSilent(u.store, TrustedCA, spec.trustedCA, input);
        QuietTransitive(s, u.store, LinkReference(u.store, TrustedCA, spec.trustedCA, input).store);
      }
    }
  }

  lemma CreateIsSilent(s: Store, input: Input)
    requires s.ironic.Some?
    ensures Silent(s, CreateApiSecretObject(s, input).store)
  {
    hide Complain, GenerateSecret, Quiet;
    ComplainIsSilent(s, BadCredentials, input);
    var secret := GenerateSecret(s.ironic.value, input);
    if secret.Some? {
      var t := s.(secrets := s.secrets[input.freshName := secret.value]);
      SecretsAreSilent(s, t.secrets);
      SecretsAreSilent(s, s.secrets);
      ComplainIsSilent(t, BadCredentials, input);
      QuietTransitive(s, t, Complain(t, BadCredentials, input));
      NamingIsSilent(s, t.secrets, input.freshName);
    }
  }

  lemma SecretsAreSilent(s: Store, secrets: Secrets)
    requires s.ironic.Some?
    ensures Silent(s, s.(secrets := secrets))
  {
  }

  lemma NamingIsSilent(s: Store, secrets: Secrets, name: string)
    requires s.ironic.Some?
    ensures var ironic := s.ironic.value;
      var named := ironic.(spec := ironic.spec.(apiCredentials := name), generation := ironic.generation + 1);
      Silent(s, s.(secrets := secrets, ironic := Some(named)))
  {
  }

  lemma ApiSecretIsSilent(s: Store, input: Input)
    requires s.ironic.Some?
    ensures Silent(s, EnsureApiSecret(s, input).store)
  {
    hide Complain, LinkSecret, CreateApiSecretObject;
    var name := s.ironic.value.spec.apiCredentials;
    CreateIsSilent(s, input);
    LinkIsSilent(s, ApiCredentials, name, input);
    var linked := LinkSecret(s, ApiCredentials, name, input);
    if name != "" && linked.Go? {
      ComplainIsSilent(linked.store, BadCredentials, input);
      QuietTransitive(s, linked.store, Complain(linked.store, BadCredentials, input));
    }
  }

  // When preparing succeeds, the version to install is recorded: it is the
  // installed or the requested one.
  ghost predicate Recorded(s: Store, v: Version) {
    && s.ironic.Some?
    && (v.ToString() == s.ironic.value.status.installed || v.ToString() == s.ironic.value.status.requested)
  }

  lemma PreparedQuietly(s: Store, v: ParsedVersion, input: Input)
    requires s.ironic.Some?
    ensures var r := Prepare(s, v, input);
      && Quiet(s, r.store)
      && (r.Go? ==>
            && Recorded(r.store, v)
            && RequestVersion(s, v, input).Go?
            && r.store.ironic == RequestVersion(s, v, input).store.ironic
            && r.store.ironic.value.spec == s.ironic.value.spec)
  {
    hide EnsureApiSecret, LinkAll, ParseVersion, Complain;
    RequestIsQuiet(s, v, input);
    var t := RequestVersion(s, v, input);
    if t.Go? {
      ApiSecretIsSilent(t.store, input);
      var u := EnsureApiSecret(t.store, input);
      QuietTransitive(s, t.store, u.store);
      if u.Go? {
        LinkAllIsSilent(u.store, input);
        QuietTransitive(s, u.store, LinkAll(u.store, input).store);
      }
    }
  }

  // Cleaning up touches the networking service, its secrets and the finalizer.
  lemma CleanUpIsQuiet(s: Store, input: Input)
    requires s.ironic.Some?
    ensures var t := CleanUp(s, input).store;
      && t.ironic.Some?
      && t.ironic.value == s.ironic.value.(finalizer := t.ironic.value.finalizer)
      && t == s.(ironic := t.ironic, secrets := t.secrets, networkDeployment := t.networkDeployment,
                 networkService := t.networkService)
  {
    hide RemoveIronicNetworking;
    RemovalFrame(s, input);
  }

  lemma RemovalFrame(s: Store, input: Input)
    requires s.ironic.Some?
    ensures var t := RemoveIronicNetworking(s, input).store;
      t == s.(secrets := t.secrets, networkDeployment := t.networkDeployment, networkService := t.networkService)
  {
    hide EnsureSwitchSecretDeleted, RemoveNetworkingResources;
  }
}
