// internal/controller/ironic_controller.go: one reconcile of the Ironic object.
module Controller {
  import opened Options
  import opened Versions
  import opened Htpasswd
  import opened Cluster
  import opened SecretManager
  import opened SwitchSecrets
  import opened Networking
  import opened Deploy

  /* ---- Writes to the Ironic object ---- */

  function WriteStatus(s: Store, status: Status, fate: Fate): Store
    requires s.ironic.Some?
  {
    if fate.Applied() then
      s.(ironic := Some(s.ironic.value.(status := status)),
         journal := s.journal + [StatusWritten(s.ironic.value.status, status)])
    else s
  }

  function NotReady(ironic: Ironic, reason: Reason, message: Message): (r: Status)
    ensures !r.Ready() && r.installed == ironic.status.installed && r.requested == ironic.status.requested
    ensures r.condition.Some? && r.condition.value.generation == ironic.generation
  {
    ironic.status.(condition := Some(Condition(false, reason, message, ironic.generation)))
  }

  // setNotReady before returning: its own failure is ignored.
  function Complain(s: Store, message: Message, input: Input): Store
    requires s.ironic.Some?
  {
    WriteStatus(s, NotReady(s.ironic.value, Failed, message), input.faults(WriteNotReady))
  }

  function EnsureFinalizer(s: Store, input: Input): (r: Flow)
    requires s.ironic.Some?
    ensures r.store.ironic.Some?
    ensures r.Go? ==> r.store.ironic == s.ironic
  {
    if s.ironic.value.finalizer then Go(s)
    else
      var fate := input.faults(AddFinalizer);
      Stop(if fate.Applied() then s.(ironic := Some(s.ironic.value.(finalizer := true))) else s,
           !fate.Failed(), fate.Failed())
  }

  /* ---- The requested version ---- */

  // pkg/ironic/version.go, WithIronicOverrides
  function EffectiveVersion(spec: Spec, defaultVersion: ParsedVersion): Option<ParsedVersion> {
    if spec.version == "" then Some(defaultVersion) else ParseVersion(spec.version)
  }

  // The guard of the downgrade check: it is skipped when the request equals
  // the installed or the already recorded version, or without a database.
  function RequestVersion(s: Store, v: ParsedVersion, input: Input): (r: Flow)
    requires s.ironic.Some?
    ensures r.store.ironic.Some?
    ensures r.Go? ==> r.store.ironic.value.spec == s.ironic.value.spec
  {
    var ironic := s.ironic.value;
    var version := v.ToString();
    if version == ironic.status.installed || version == ironic.status.requested then Go(s)
    else if ironic.status.installed != "" && ironic.spec.database then
      match ParseVersion(ironic.status.installed)
      case None => Stop(s, false, true)
      case Some(parsed) =>
        if !parsed.IsLatest() && v.Compare(parsed) < 0 then Stop(Complain(s, DowngradeRefused, input), false, false)
        else Announce(s, version, input)
    else Announce(s, version, input)
  }

  function Announce(s: Store, version: string, input: Input): Flow
    requires s.ironic.Some?
  {
    var ironic := s.ironic.value.(status := s.ironic.value.status.(requested := version));
    var fate := input.faults(WriteRequested);
    var t := WriteStatus(s, NotReady(ironic, InProgress, NewVersionRequested), fate);
    if fate.Failed() then Stop(t, false, true) else Go(t)
  }

  // pkg/ironic/version.go, CheckVersion
  predicate VersionTooOldFor(spec: Spec, v: Version) {
    spec.extraRanges && v.Compare(VERSION_37_0) < 0
  }

  /* ---- Linked secrets and config maps ---- */

  function LinkSecret(s: Store, role: Role, name: string, input: Input): (r: Flow)
    requires s.ironic.Some?
    ensures r.store.ironic.Some?
    ensures r.Go? ==> r.store.ironic == s.ironic
  {
    var r := Acquire(s.secrets, name, Some(s.ironic.value.uid), role, input);
    var t := s.(secrets := r.0);
    if r.1.Acquired? then Go(t)
    else Stop(if r.1.NeedsUser() then Complain(t, BadLink(role), input) else t, true, true)
  }

  function LinkReference(s: Store, role: Role, reference: Option<Reference>, input: Input): (r: Flow)
    requires s.ironic.Some?
    ensures r.store.ironic.Some?
    ensures r.Go? ==> r.store.ironic == s.ironic
  {
    match reference
    case None => Go(s)
    case Some(Reference(SecretKind, name)) => LinkSecret(s, role, name, input)
    case Some(Reference(OtherKind, _)) => Stop(s, false, true)
    case Some(Reference(ConfigMapKind, name)) =>
      var r := Acquire(s.configMaps, name, None, role, input).1;
      if r.Acquired? then Go(s)
      else Stop(if r.NeedsUser() then Complain(s, BadLink(role), input) else s, true, true)
  }

  function LinkAll(s: Store, input: Input): (r: Flow)
    requires s.ironic.Some?
    ensures r.store.ironic.Some?
    ensures r.Go? ==> r.store.ironic == s.ironic
  {
    var spec := s.ironic.value.spec;
    var t :- if spec.certificate == "" then Go(s) else LinkSecret(s, Certificate, spec.certificate, input);
    var u :- LinkReference(t, BmcCA, spec.bmcCA, input);
    LinkReference(u, TrustedCA, spec.trustedCA, input)
  }

  // A secret with generated credentials, or None when they are refused.
  function GenerateSecret(ironic: Ironic, input: Input): Option<Secret> {
    var password :- input.password;
    match Updated(map[USERNAME := ironic.name, PASSWORD := password], input.crypt, input.salt)
    case Changed(data) => Some(Secret(true, false, [ironic.uid], data))
    case _ => None
  }

  function CreateApiSecretObject(s: Store, input: Input): Flow
    requires s.ironic.Some?
  {
    var ironic := s.ironic.value;
    match GenerateSecret(ironic, input)
    case None => Stop(Complain(s, BadCredentials, input), true, true)
    case Some(secret) =>
      var create := input.faults(CreateApiSecret);
      var taken := input.freshName in s.secrets;
      var t := if create.Applied() && !taken then s.(secrets := s.secrets[input.freshName := secret]) else s;
      if create.Failed() || taken then Stop(Complain(t, BadCredentials, input), true, true)
      else
        var update := input.faults(UpdateIronic);
        var named := ironic.(spec := ironic.spec.(apiCredentials := input.freshName),
                             generation := ironic.generation + 1);
        Stop(if update.Applied() then t.(ironic := Some(named)) else t, true, update.Failed())
  }

  function EnsureApiSecret(s: Store, input: Input): (r: Flow)
    requires s.ironic.Some?
    ensures r.store.ironic.Some?
    ensures r.Go? ==> r.store.ironic == s.ironic
  {
    var name := s.ironic.value.spec.apiCredentials;
    if name == "" then CreateApiSecretObject(s, input)
    else
      var t :- LinkSecret(s, ApiCredentials, name, input);
      UpdateApiSecretObject(t, name, input)
  }

  function UpdateApiSecretObject(s: Store, name: string, input: Input): (r: Flow)
    requires s.ironic.Some? && name in s.secrets
    ensures r.store.ironic.Some?
    ensures r.Go? ==> r.store == s
  {
    match Updated(s.secrets[name].data, input.crypt, input.salt)
    case Unchanged => Go(s)
    case Refused => Stop(Complain(s, BadCredentials, input), true, true)
    case Changed(data) =>
      var fate := input.faults(UpdateApiSecret);
      Stop(if fate.Applied() then s.(secrets := s.secrets[name := s.secrets[name].(data := data)]) else s,
           true, fate.Failed())
  }

  /* ---- The reconcile ---- */

  function ConditionFor(progress: Progress, generation: nat): (r: Condition)
    ensures r.generation == generation
    ensures (r.ready <==> progress.Ready?) && (r.reason.Available? <==> progress.Ready?)
    ensures r.reason.Failed? <==> progress.Fatal?
  {
    match progress
    case Ready => Condition(true, Available, ResourcesAvailable, generation)
    case Fatal(message) => Condition(false, Failed, message, generation)
    case Waiting(message) => Condition(false, InProgress, message, generation)
    case _ => Condition(false, InProgress, BeingUpdated, generation)
  }

  function StatusAfter(ironic: Ironic, progress: Progress, version: string): Status {
    ironic.status.(condition := Some(ConditionFor(progress, ironic.generation)),
                   installed := if progress.Ready? then version else ironic.status.installed)
  }

  function UpdateIronicStatus(s: Store, progress: Progress, version: string, input: Input): Flow
    requires s.ironic.Some?
  {
    var status := StatusAfter(s.ironic.value, progress, version);
    if status == s.ironic.value.status then Stop(s, progress.NeedsRequeue(), false)
    else
      var fate := input.faults(WriteOutcome);
      Stop(WriteStatus(s, status, fate), progress.NeedsRequeue(), fate.Failed())
  }

  // Everything up to the switch secrets.
  function Prepare(s: Store, v: ParsedVersion, input: Input): (r: Flow)
    requires s.ironic.Some?
    ensures r.store.ironic.Some?
  {
    var t :- RequestVersion(s, v, input);
    var u :- EnsureApiSecret(t, input);
    LinkAll(u, input)
  }

  // Everything from the switch secrets on.
  function Install(s: Store, v: ParsedVersion, input: Input): (r: Flow)
    requires s.ironic.Some?
    ensures r.Stop?
  {
    var ironic := s.ironic.value;
    var (secrets, switches) := EnsureNetworkingSwitchSecrets(s.secrets, ironic, input);
    var t := s.(secrets := secrets);
    if switches.Problem? then
      Stop(if switches.needsUser then Complain(t, BadLink(SwitchConfig), input) else t, false, true)
    else if VersionTooOldFor(ironic.spec, v) then Stop(Complain(t, VersionTooOld, input), false, false)
    else
      match EnsureIronicNetworking(t, switches, v.ToString(), input)
      case Held(u, progress) => Stop(u, !progress.Transient?, progress.Transient?)
      case Passed(u) =>
        var (w, progress) := EnsureIronic(u, v.ToString(), input);
        if progress.Transient? then Stop(w, false, true)
        else UpdateIronicStatus(w, progress, v.ToString(), input)
  }

  // pkg/ironic/ironic.go, RemoveIronic, removes nothing itself: the owned
  // objects follow the Ironic object. The finalizer goes last.
  function CleanUp(s: Store, input: Input): Flow
    requires s.ironic.Some?
  {
    if !s.ironic.value.finalizer then Stop(s, false, false)
    else
      match RemoveIronicNetworking(s, input)
      case Held(t, _) => Stop(t, false, true)
      case Passed(t) =>
        var fate := input.faults(RemoveFinalizer);
        Stop(if fate.Applied() then t.(ironic := Some(s.ironic.value.(finalizer := false))) else t,
             !fate.Failed(), fate.Failed())
  }

  function HandleIronic(s: Store, input: Input): Flow
    requires s.ironic.Some?
  {
    if s.ironic.value.deleting then CleanUp(s, input)
    else
      var t :- EnsureFinalizer(s, input);
      match EffectiveVersion(t.ironic.value.spec, input.defaultVersion)
      case None => Stop(Complain(t, BadVersion, input), true, true)
      case Some(v) =>
        var u :- Prepare(t, v, input);
        Install(u, v, input)
  }

  // One reconcile, from reading the Ironic object on.
  function Reconcile(s: Store, input: Input): Flow {
    if input.faults(GetIronic).Failed() then Stop(s, false, true)
    else if s.ironic.None? then Stop(s, false, false)
    else HandleIronic(s, input)
  }

  /* ---- The code ---- */

  // Updates the condition of the object in memory, and writes its status.
  method SetNotReady(api: Api, ironicConf: Ironic, reason: Reason, message: Message, call: Call, input: Input)
    returns (changed: Ironic, failed: bool)
    requires api.ironic.Some?
    modifies api`ironic, api`journal
    ensures changed == ironicConf.(status := NotReady(ironicConf, reason, message))
    ensures api.Snapshot() == WriteStatus(old(api.Snapshot()), changed.status, input.faults(call))
    ensures failed <==> input.faults(call).Failed()
  {
    changed := ironicConf.(status := NotReady(ironicConf, reason, message));
    UpdateStatus(api, changed.status, input.faults(call));
    failed := input.faults(call).Failed();
  }

  // The status subresource of the stored object.
  method UpdateStatus(api: Api, status: Status, fate: Fate)
    requires api.ironic.Some?
    modifies api`ironic, api`journal
    ensures api.Snapshot() == WriteStatus(old(api.Snapshot()), status, fate)
  {
    if fate.Applied() {
      ghost var before := api.ironic.value.status;
      api.ironic := Some(api.ironic.value.(status := status));
      api.journal := api.journal + [StatusWritten(before, status)];
    }
  }

  method AddFinalizerTo(api: Api, ironicConf: Ironic, input: Input) returns (requeue: bool, failed: bool)
    requires api.ironic == Some(ironicConf)
    modifies api`ironic
    ensures var flow := EnsureFinalizer(old(api.Snapshot()), input);
      && api.Snapshot() == flow.store
      && (flow.Go? <==> !requeue && !failed)
      && (flow.Stop? ==> requeue == flow.requeue && failed == flow.failed)
  {
    if ironicConf.finalizer {
      return false, false;
    }
    var fate := input.faults(AddFinalizer);
    if fate.Applied() {
      api.ironic := Some(ironicConf.(finalizer := true));
    }
    return !fate.Failed(), fate.Failed();
  }

  // Either stops, or leaves the version to install recorded.
  method RecordVersion(api: Api, conf: Ironic, v: ParsedVersion, input: Input)
    returns (ironicConf: Ironic, stop: bool, failed: bool)
    requires api.ironic == Some(conf)
    modifies api`ironic, api`journal
    ensures var flow := RequestVersion(old(api.Snapshot()), v, input);
      && api.Snapshot() == flow.store
      && (flow.Go? <==> !stop)
      && (flow.Stop? ==> !flow.requeue && failed == flow.failed)
      && (flow.Go? ==> api.ironic == Some(ironicConf))
  {
    ironicConf := conf;
    var actuallyRequestedVersion := v.ToString();
    var status := ironicConf.status;
    if actuallyRequestedVersion != status.installed && actuallyRequestedVersion != status.requested {
      if ironicConf.status.installed != "" && ironicConf.spec.database {
        var parsedVersion := ParseVersion(ironicConf.status.installed);
        if parsedVersion.None? {
          return ironicConf, true, true;
        }
        if !parsedVersion.value.IsLatest() && v.Compare(parsedVersion.value) < 0 {
          ironicConf, failed := SetNotReady(api, ironicConf, Failed, DowngradeRefused, WriteNotReady, input);
          return ironicConf, true, false;
        }
      }
      ironicConf := ironicConf.(status := ironicConf.status.(requested := actuallyRequestedVersion));
      ironicConf, failed := SetNotReady(api, ironicConf, InProgress, NewVersionRequested, WriteRequested, input);
      if failed {
        return ironicConf, true, true;
      }
    }
    return ironicConf, false, false;
  }

  method GetAndUpdateSecret(api: Api, ironicConf: Ironic, role: Role, name: string, input: Input)
    returns (secret: Option<Secret>)
    requires api.ironic == Some(ironicConf)
    modifies api`ironic, api`journal, api`secrets
    ensures var flow := LinkSecret(old(api.Snapshot()), role, name, input);
      && api.Snapshot() == flow.store
      && (flow.Go? <==> secret.Some?)
      && (flow.Go? ==> name in api.secrets && secret.value == api.secrets[name])
      && (flow.Stop? ==> flow.requeue && flow.failed)
  {
    var acquired := AcquireSecret(api, name, Some(ironicConf.uid), role, input);
    if !acquired.Acquired? {
      if acquired.NeedsUser() {
        var _, _ := SetNotReady(api, ironicConf, Failed, BadLink(role), WriteNotReady, input);
      }
      return None;
    }
    return Some(acquired.secret);
  }

  method GetReference(api: Api, ironicConf: Ironic, role: Role, reference: Option<Reference>, input: Input)
    returns (requeue: bool, failed: bool)
    requires api.ironic == Some(ironicConf)
    modifies api`ironic, api`journal, api`secrets
    ensures var flow := LinkReference(old(api.Snapshot()), role, reference, input);
      && api.Snapshot() == flow.store
      && (flow.Go? <==> !requeue && !failed)
      && (flow.Stop? ==> requeue == flow.requeue && failed == flow.failed)
  {
    match reference
    case None => return false, false;
    case Some(Reference(kind, name)) =>
      match kind
      case SecretKind =>
        var secret := GetAndUpdateSecret(api, ironicConf, role, name, input);
        return secret.None?, secret.None?;
      case ConfigMapKind =>
        var acquired := ObtainConfigMap(api, name, role, input);
        if !acquired.Acquired? && acquired.NeedsUser() {
          var _, _ := SetNotReady(api, ironicConf, Failed, BadLink(role), WriteNotReady, input);
        }
        return !acquired.Acquired?, !acquired.Acquired?;
      case OtherKind => return false, true;
  }

  method GetLinked(api: Api, ironicConf: Ironic, input: Input) returns (requeue: bool, failed: bool)
    requires api.ironic == Some(ironicConf)
    modifies api`ironic, api`journal, api`secrets
    ensures var flow := LinkAll(old(api.Snapshot()), input);
      && api.Snapshot() == flow.store
      && (flow.Go? <==> !requeue && !failed)
      && (flow.Stop? ==> requeue == flow.requeue && failed == flow.failed)
  {
    hide LinkSecret, LinkReference;
    if ironicConf.spec.certificate != "" {
      var tlsSecret := GetAndUpdateSecret(api, ironicConf, Certificate, ironicConf.spec.certificate, input);
      if tlsSecret.None? {
        return true, true;
      }
    }
    requeue, failed := GetReference(api, ironicConf, BmcCA, ironicConf.spec.bmcCA, input);
    if requeue || failed {
      return;
    }
    requeue, failed := GetReference(api, ironicConf, TrustedCA, ironicConf.spec.trustedCA, input);
  }

  method CreateAPISecret(api: Api, ironicConf: Ironic, input: Input) returns (failed: bool)
    requires api.ironic == Some(ironicConf)
    modifies api`ironic, api`journal, api`secrets
    ensures var flow := CreateApiSecretObject(old(api.Snapshot()), input);
      && api.Snapshot() == flow.store
      && flow.Stop? && flow.requeue && flow.failed == failed
  {
    var apiSecret := GenerateSecret(ironicConf, input);
    if apiSecret.None? {
      var _, _ := SetNotReady(api, ironicConf, Failed, BadCredentials, WriteNotReady, input);
      return true;
    }
    var create := input.faults(CreateApiSecret);
    var taken := input.freshName in api.secrets;
    if create.Applied() && !taken {
      api.secrets := api.secrets[input.freshName := apiSecret.value];
    }
    if create.Failed() || taken {
      var _, _ := SetNotReady(api, ironicConf, Failed, BadCredentials, WriteNotReady, input);
      return true;
    }
    var update := input.faults(UpdateIronic);
    if update.Applied() {
      api.ironic := Some(ironicConf.(spec := ironicConf.spec.(apiCredentials := input.freshName),
                                     generation := ironicConf.generation + 1));
    }
    return update.Failed();
  }

  method EnsureAPISecret(api: Api, ironicConf: Ironic, input: Input) returns (requeue: bool, failed: bool)
    requires api.ironic == Some(ironicConf)
    modifies api`ironic, api`journal, api`secrets
    ensures var flow := EnsureApiSecret(old(api.Snapshot()), input);
      && api.Snapshot() == flow.store
      && (flow.Go? <==> !requeue && !failed)
      && (flow.Stop? ==> requeue == flow.requeue && failed == flow.failed)
  {
    hide LinkSecret, CreateApiSecretObject;
    var name := ironicConf.spec.apiCredentials;
    if name == "" {
      failed := CreateAPISecret(api, ironicConf, input);
      return true, failed;
    }
    var apiSecret := GetAndUpdateSecret(api, ironicConf, ApiCredentials, name, input);
    if apiSecret.None? {
      return true, true;
    }
    var secret := new SecretObject(apiSecret.value.data);
    requeue, failed := secret.UpdateSecret(input.crypt, input.salt);
    if failed {
      var _, _ := SetNotReady(api, ironicConf, Failed, BadCredentials, WriteNotReady, input);
      return true, true;
    }
    if requeue {
      var fate := input.faults(UpdateApiSecret);
      if fate.Applied() {
        api.secrets := api.secrets[name := apiSecret.value.(data := secret.data)];
      }
      failed := fate.Failed();
    }
  }

  method UpdateOutcome(api: Api, ironicConf: Ironic, status: Progress, version: string, input: Input)
    returns (requeue: bool, failed: bool)
    requires api.ironic == Some(ironicConf)
    modifies api`ironic, api`journal
    ensures UpdateIronicStatus(old(api.Snapshot()), status, version, input) == Stop(api.Snapshot(), requeue, failed)
  {
    var newStatus := ironicConf.status.(condition := Some(ConditionFor(status, ironicConf.generation)));
    requeue := status.NeedsRequeue();
    if status.Ready? {
      newStatus := newStatus.(installed := version);
    }
    if newStatus != ironicConf.status {
      UpdateStatus(api, newStatus, input.faults(WriteOutcome));
      return requeue, input.faults(WriteOutcome).Failed();
    }
    return requeue, false;
  }

  method InstallVersion(api: Api, ironicConf: Ironic, v: ParsedVersion, input: Input)
    returns (requeue: bool, failed: bool)
    requires api.ironic == Some(ironicConf)
    modifies api
    ensures Install(old(api.Snapshot()), v, input) == Stop(api.Snapshot(), requeue, failed)
  {
    hide EnsureNetworkingSwitchSecrets, EnsureIronicNetworking, EnsureIronic, UpdateIronicStatus;
    var switches := EnsureSwitches(api, ironicConf, input);
    if switches.Problem? {
      if switches.needsUser {
        var _, _ := SetNotReady(api, ironicConf, Failed, BadLink(SwitchConfig), WriteNotReady, input);
      }
      return false, true;
    }
    if VersionTooOldFor(ironicConf.spec, v) {
      var _, _ := SetNotReady(api, ironicConf, Failed, VersionTooOld, WriteNotReady, input);
      return false, false;
    }
    var networkingStatus := EnsureNetworking(api, ironicConf, switches, v.ToString(), input);
    if networkingStatus.Transient? {
      return false, true;
    }
    if !networkingStatus.Ready? {
      return true, false;
    }
    var status := Ensure(api, ironicConf, v.ToString(), input);
    if status.Transient? {
      return false, true;
    }
    requeue, failed := UpdateOutcome(api, ironicConf, status, v.ToString(), input);
  }

  method CleanUpIronic(api: Api, ironicConf: Ironic, input: Input) returns (requeue: bool, failed: bool)
    requires api.ironic == Some(ironicConf)
    modifies api
    ensures CleanUp(old(api.Snapshot()), input) == Stop(api.Snapshot(), requeue, failed)
  {
    hide RemoveIronicNetworking;
    if !ironicConf.finalizer {
      return false, false;
    }
    failed := RemoveNetworking(api, ironicConf, input);
    if failed {
      return false, true;
    }
    var fate := input.faults(RemoveFinalizer);
    if fate.Applied() {
      api.ironic := Some(ironicConf.(finalizer := false));
    }
    return !fate.Failed(), fate.Failed();
  }

  method HandleIronicObject(api: Api, conf: Ironic, input: Input) returns (requeue: bool, failed: bool)
    requires api.ironic == Some(conf)
    modifies api
    ensures HandleIronic(old(api.Snapshot()), input) == Stop(api.Snapshot(), requeue, failed)
  {
    hide CleanUp, RequestVersion, EnsureApiSecret, LinkAll, Install;
    var ironicConf := conf;
    if ironicConf.deleting {
      requeue, failed := CleanUpIronic(api, ironicConf, input);
      return;
    }
    requeue, failed := AddFinalizerTo(api, ironicConf, input);
    if requeue || failed {
      return;
    }
    var v := EffectiveVersion(ironicConf.spec, input.defaultVersion);
    if v.None? {
      var _, _ := SetNotReady(api, ironicConf, Failed, BadVersion, WriteNotReady, input);
      return true, true;
    }
    var stop;
    ironicConf, stop, failed := RecordVersion(api, ironicConf, v.value, input);
    if stop {
      return false, failed;
    }
    requeue, failed := EnsureAPISecret(api, ironicConf, input);
    if requeue || failed {
      return;
    }
    requeue, failed := GetLinked(api, ironicConf, input);
    if requeue || failed {
      return;
    }
    requeue, failed := InstallVersion(api, ironicConf, v.value, input);
  }

  method ReconcileIronic(api: Api, input: Input) returns (requeue: bool, failed: bool)
    modifies api
    ensures Reconcile(old(api.Snapshot()), input) == Stop(api.Snapshot(), requeue, failed)
  {
    hide HandleIronic;
    if input.faults(GetIronic).Failed() {
      return false, true;
    }
    if api.ironic.None? {
      return false, false;
    }
    requeue, failed := HandleIronicObject(api, api.ironic.value, input);
  }
}
