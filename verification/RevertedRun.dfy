// Runs that end with Ready=True although the requested version is not the
// installed one: the request is taken back before it was installed. There is
// one for any two versions.
module RevertedRun {
  import opened Options
  import opened Text
  import opened Versions
  import opened Htpasswd
  import opened Cluster
  import opened Workloads
  import opened SecretManager
  import opened SwitchSecrets
  import opened Networking
  import opened Upgrades
  import opened Deploy
  import opened Controller
  import opened Runs
  import opened ReadyMeaning

  /* ---- A simple object and its cluster ---- */

  // It takes the default version and has credentials, but no database and no
  // optional parts.
  ghost predicate Simple(spec: Spec) {
    && spec.version == "" && !spec.database && !spec.highAvailability
    && spec.apiCredentials != "" && spec.certificate == "" && spec.bmcCA.None? && spec.trustedCA.None?
    && spec.networking.None? && !spec.extraRanges && spec.ingress.None? && !spec.metrics
  }

  ghost predicate New(ironic: Ironic) {
    !ironic.finalizer && !ironic.deleting && ironic.status == EMPTY_STATUS && Simple(ironic.spec)
  }

  // Calls work, except that the write recording a request may go unanswered;
  // the credentials are up to date.
  ghost predicate Helps(input: Input, answered: bool, v: ParsedVersion, data: Data) {
    && (forall call :: input.faults(call) == if call == WriteRequested && !answered then Unacked else Acked)
    && input.defaultVersion == v
    && (forall spec :: input.valid(spec))
    && !SecretNeedsUpdating(data, input.crypt)
  }

  function Credentials(ironic: Ironic, data: Data, owners: seq<Uid>): Secrets {
    map[ironic.spec.apiCredentials := Secret(true, false, owners, data)]
  }

  // Nothing is deployed.
  function Bare(ironic: Ironic, secrets: Secrets, journal: seq<Event>): Store {
    Store(Some(ironic), secrets, map[], map[], None, None, None, None, false, None, false, journal)
  }

  function Desired(version: string, spec: Spec, data: Data): Template {
    Template(version, spec, data, map[])
  }

  // The workload and the service of one version.
  function Deployed(s: Store, template: Template, status: DeploymentStatus, addresses: bool): Store {
    s.(deployment := Some(Deployment(template, 1, status)),
       service := Some(Service(template.version, Ports(false, true, false), addresses)))
  }

  const STARTING := DeploymentStatus(0, [], 0, 0)
  const ROLLED_OUT := [
    DeploymentCondition(DeploymentAvailable, True, OtherReason),
    DeploymentCondition(Progressing, True, NewReplicaSetAvailable)]
  const RUNNING := DeploymentStatus(1, ROLLED_OUT, 1, 1)

  /* ---- What happens in it ---- */

  // The object owns its credentials after linking them.
  lemma Linked(s: Store, data: Data, owners: seq<Uid>, input: Input, v: ParsedVersion)
    requires s.ironic.Some? && Simple(s.ironic.value.spec) && Helps(input, true, v, data)
    requires s.secrets == Credentials(s.ironic.value, data, owners)
    requires owners == [] || owners == [s.ironic.value.uid]
    ensures var t := s.(secrets := Credentials(s.ironic.value, data, [s.ironic.value.uid]));
      EnsureApiSecret(s, input) == Go(t) && LinkAll(t, input) == Go(t)
  {
    hide SecretNeedsUpdating, Complain;
    var name, uid := s.ironic.value.spec.apiCredentials, s.ironic.value.uid;
    assert Claimed(Secret(true, false, owners, data), Some(uid)) == Secret(true, false, [uid], data);
    assert s.secrets[name := Secret(true, false, [uid], data)] == Credentials(s.ironic.value, data, [uid]);
    assert LinkSecret(s, ApiCredentials, name, input) == Go(s.(secrets := Credentials(s.ironic.value, data, [uid])));
  }

  lemma NothingForNetworking(s: Store, version: string, data: Data, input: Input, v: ParsedVersion)
    requires s.ironic.Some? && Simple(s.ironic.value.spec) && Helps(input, true, v, data)
    requires forall name | name in s.secrets :: !s.secrets[name].managed
    requires s.networkDeployment.None? && !s.networkService
    ensures EnsureNetworkingSwitchSecrets(s.secrets, s.ironic.value, input) == (s.secrets, Off)
    ensures EnsureIronicNetworking(s, Off, version, input) == Passed(s)
  {
    assert !s.ironic.value.spec.NetworkingEnabled();
    assert forall call | call != WriteRequested :: !input.faults(call).Failed();
    NothingDeletable(s.secrets, s.ironic.value, SwitchConfig, input);
    NothingDeletable(s.secrets, s.ironic.value, SwitchCredentials, input);
    hide EnsureSwitchSecretDeleted, SwitchSecretName, Helps, Simple;
    assert RemoveNetworkingResources(s, input) == Passed(s);
  }

  lemma NothingDeletable(secrets: Secrets, ironic: Ironic, role: Role, input: Input)
    requires role.SwitchConfig? || role.SwitchCredentials?
    requires forall name | name in secrets :: !secrets[name].managed
    requires !input.faults(GetSwitch(role)).Failed()
    ensures EnsureSwitchSecretDeleted(secrets, ironic, role, input) == (secrets, false)
  {
    hide SwitchSecretName;
  }

  lemma ItRuns(template: Template)
    ensures DeploymentProgress(Deployment(template, 1, RUNNING)) == Ready
  {
    assert ROLLED_OUT[0] in ROLLED_OUT;
    assert FirstFailure(ROLLED_OUT[1..]).None?;
  }

  lemma FirstWrites(s: Store, template: Template, input: Input, v: ParsedVersion, data: Data)
    requires s.ironic.Some? && Simple(s.ironic.value.spec) && Helps(input, true, v, data)
    requires s == Bare(s.ironic.value, s.secrets, s.journal) && template == IronicTemplate(s, template.version)
    ensures var (t, progress) := EnsureIronic(s, template.version, input);
      progress == Updating && t == Deployed(s.(journal := t.journal), template, STARTING, false)
  {
    FirstWorkload(s, template, input, v, data);
    var w := EnsureWorkload(s, template.version, input).0;
    FirstService(w, template.version, input, v, data);
    hide EnsureWorkload, EnsureService, IronicTemplate;
    var access := EnsureService(w, template.version, input);
    assert EnsureAccess(w, template.version, input) == access;
    assert RemoveOtherWorkload(s, input) == Passed(s);
    assert EnsureUpgradeJob(s, Pre, template.version, input) == Passed(s);
  }

  lemma FirstWorkload(s: Store, template: Template, input: Input, v: ParsedVersion, data: Data)
    requires s.ironic.Some? && Simple(s.ironic.value.spec) && Helps(input, true, v, data)
    requires s.deployment.None? && template == IronicTemplate(s, template.version)
    ensures var (w, progress) := EnsureWorkload(s, template.version, input);
      && w == s.(deployment := Some(Deployment(template, 1, STARTING)), journal := w.journal)
      && progress == Updating
  {
    assert input.faults(GetWorkload).Acked? && input.faults(WriteWorkload).Acked?;
    hide DeploymentProgress, DaemonSetProgress, IronicTemplate, Helps;
  }

  lemma FirstService(s: Store, version: string, input: Input, v: ParsedVersion, data: Data)
    requires s.ironic.Some? && Simple(s.ironic.value.spec) && Helps(input, true, v, data) && s.service.None?
    ensures EnsureService(s, version, input) ==
      Held(s.(service := Some(Service(version, Ports(false, true, false), false))), Updating)
  {
    assert input.faults(GetService).Acked? && input.faults(WriteService).Acked?;
    hide Helps;
  }

  lemma NothingToDeploy(s: Store, template: Template, input: Input, v: ParsedVersion, data: Data)
    requires s.ironic.Some? && Simple(s.ironic.value.spec) && Helps(input, true, v, data)
    requires s == Deployed(Bare(s.ironic.value, s.secrets, s.journal), template, RUNNING, true)
    requires template == IronicTemplate(s, template.version)
    ensures EnsureIronic(s, template.version, input) == (s, Ready)
  {
    ItRuns(template);
    hide DeploymentProgress, DaemonSetProgress, IronicTemplate;
    assert RemoveOtherWorkload(s, input) == Passed(s);
    assert EnsureWorkload(s, template.version, input) == (s, Ready);
    assert EnsureAccess(s, template.version, input) == Passed(s);
  }

  // From a recorded request to the status, in a cluster with no networking.
  lemma InstallDeploys(s: Store, v: ParsedVersion, input: Input, data: Data)
    requires s.ironic.Some? && Simple(s.ironic.value.spec) && Helps(input, true, v, data)
    requires forall name | name in s.secrets :: !s.secrets[name].managed
    requires s.networkDeployment.None? && !s.networkService
    requires !EnsureIronic(s, v.ToString(), input).1.Transient?
    ensures var (t, progress) := EnsureIronic(s, v.ToString(), input);
      Install(s, v, input) == UpdateIronicStatus(t, progress, v.ToString(), input)
  {
    NothingForNetworking(s, v.ToString(), data, input, v);
    hide EnsureNetworkingSwitchSecrets, EnsureIronicNetworking, EnsureIronic, UpdateIronicStatus;
  }

  lemma PrepareLinks(s: Store, t: Store, v: ParsedVersion, input: Input)
    requires s.ironic.Some? && !s.ironic.value.deleting && s.ironic.value.finalizer
    requires input.faults(GetIronic).Acked? && EffectiveVersion(s.ironic.value.spec, input.defaultVersion) == Some(v)
    requires RequestVersion(s, v, input).Go?
    requires EnsureApiSecret(RequestVersion(s, v, input).store, input) == Go(t) && LinkAll(t, input) == Go(t)
    ensures Reconcile(s, input) == Install(t, v, input)
  {
    hide RequestVersion, EnsureApiSecret, LinkAll, Install, EffectiveVersion;
  }

  // A whole reconcile that gets past the request.
  lemma ReconcileDeploys(
    s: Store, announced: Store, data: Data, owners: seq<Uid>, v: ParsedVersion, input: Input)
    requires s.ironic.Some? && s.ironic.value.finalizer && !s.ironic.value.deleting && Simple(s.ironic.value.spec)
    requires Helps(input, true, v, data) && RequestVersion(s, v, input) == Go(announced) && announced.ironic.Some?
    requires announced.ironic.value == s.ironic.value.(status := announced.ironic.value.status)
    requires announced.secrets == Credentials(s.ironic.value, data, owners)
    requires owners == [] || owners == [s.ironic.value.uid]
    requires announced.networkDeployment.None? && !announced.networkService
    ensures var t := announced.(secrets := Credentials(s.ironic.value, data, [s.ironic.value.uid]));
      var (w, progress) := EnsureIronic(t, v.ToString(), input);
      !progress.Transient? ==>
        Reconcile(s, input).store == w.(ironic := Some(Reporting(w.ironic.value, progress, v.ToString())),
                                        journal := Reconcile(s, input).store.journal)
  {
    assert input.faults(WriteOutcome).Acked? && input.faults(GetIronic).Acked?;
    assert EffectiveVersion(s.ironic.value.spec, input.defaultVersion) == Some(v);
    hide EnsureIronic, Install, RequestVersion, Reconcile, Version.ToString, Helps, Simple, UpdateIronicStatus;
    hide EnsureApiSecret, LinkAll, EffectiveVersion;
    Linked(announced, data, owners, input, v);
    var t := announced.(secrets := Credentials(s.ironic.value, data, [s.ironic.value.uid]));
    PrepareLinks(s, t, v, input);
    var (w, progress) := EnsureIronic(t, v.ToString(), input);
    if !progress.Transient? {
      InstallDeploys(t, v, input, data);
      Reports(w, progress, v.ToString(), input);
    }
  }

  lemma Reports(s: Store, progress: Progress, version: string, input: Input)
    requires s.ironic.Some? && input.faults(WriteOutcome).Acked?
    ensures var t := UpdateIronicStatus(s, progress, version, input).store;
      t == s.(ironic := Some(Reporting(s.ironic.value, progress, version)), journal := t.journal)
  {
  }

  function Reporting(ironic: Ironic, progress: Progress, version: string): Ironic {
    ironic.(status := StatusAfter(ironic, progress, version))
  }

  // The first reconcile after the finalizer announces a version and deploys it.
  lemma FirstDeployment(ironic: Ironic, data: Data, v: ParsedVersion, input: Input)
    requires Simple(ironic.spec) && ironic.finalizer && !ironic.deleting && ironic.status == EMPTY_STATUS
    requires Helps(input, true, v, data)
    ensures var s := Bare(ironic, Credentials(ironic, data, []), []);
      var template := Desired(v.ToString(), ironic.spec, data);
      var t := Reconcile(s, input).store;
      && t.ironic.Some?
      && t.ironic.value == ironic.(status := t.ironic.value.status)
      && t.ironic.value.status.requested == v.ToString()
      && t == Deployed(Bare(t.ironic.value, Credentials(ironic, data, [ironic.uid]), t.journal),
                       template, STARTING, false)
  {
    hide Reconcile, EnsureIronic, RequestVersion, Version.ToString, Helps;
    var s, version := Bare(ironic, Credentials(ironic, data, []), []), v.ToString();
    var template := Desired(version, ironic.spec, data);
    AnnouncesFirst(s, data, v, input);
    var announced := RequestVersion(s, v, input).store;
    ReconcileDeploys(s, announced, data, [], v, input);
    var t := announced.(secrets := Credentials(ironic, data, [ironic.uid]));
    assert IronicTemplate(t, version) == template;
    hide Simple;
    FirstWrites(t, template, input, v, data);
  }

  lemma AnnouncesFirst(s: Store, data: Data, v: ParsedVersion, input: Input)
    requires s.ironic.Some? && s.ironic.value.status == EMPTY_STATUS && Helps(input, true, v, data)
    ensures var r := RequestVersion(s, v, input);
      && r.Go? && r.store == s.(ironic := r.store.ironic, journal := r.store.journal)
      && r.store.ironic.value == s.ironic.value.(status := r.store.ironic.value.status)
      && r.store.ironic.value.status.requested == v.ToString()
  {
    assert v.ToString() != "";
    hide Version.ToString, ParseVersion;
  }

  // A reconcile that asks for the version that is deployed and running, and
  // recorded as requested or installed.
  lemma ReportsReady(ironic: Ironic, data: Data, v: ParsedVersion, input: Input, journal: seq<Event>)
    requires Simple(ironic.spec) && ironic.finalizer && !ironic.deleting && Helps(input, true, v, data)
    requires ironic.status.installed == v.ToString() || ironic.status.requested == v.ToString()
    ensures var template := Desired(v.ToString(), ironic.spec, data);
      var s := Deployed(Bare(ironic, Credentials(ironic, data, [ironic.uid]), journal), template, RUNNING, true);
      var t := Reconcile(s, input).store;
      && t.ironic.Some?
      && t.ironic.value == ironic.(status := t.ironic.value.status)
      && t == s.(ironic := t.ironic, journal := t.journal)
      && t.ironic.value.status.Ready()
      && t.ironic.value.status.requested == ironic.status.requested && t.ironic.value.status.installed == v.ToString()
  {
    hide Reconcile, EnsureIronic, Version.ToString, Helps;
    var version := v.ToString();
    var template := Desired(version, ironic.spec, data);
    var s := Deployed(Bare(ironic, Credentials(ironic, data, [ironic.uid]), journal), template, RUNNING, true);
    assert RequestVersion(s, v, input) == Go(s);
    hide RequestVersion;
    ReconcileDeploys(s, s, data, [ironic.uid], v, input);
    assert IronicTemplate(s, version) == template;
    hide Simple;
    NothingToDeploy(s, template, input, v, data);
  }

  // A reconcile that asks for another version, and gets no answer to its
  // first write.
  lemma AnnouncesUnanswered(s: Store, data: Data, v: ParsedVersion, w: ParsedVersion, input: Input)
    requires s.ironic.Some? && s.ironic.value.finalizer && !s.ironic.value.deleting && Helps(input, false, v, data)
    requires s.ironic.value.spec.version == w.ToString() && !s.ironic.value.spec.database
    requires s.ironic.value.status.installed == s.ironic.value.status.requested == v.ToString()
    requires v.ToString() != w.ToString()
    ensures var t := Reconcile(s, input).store;
      && t == s.(ironic := t.ironic, journal := t.journal) && t.ironic.Some?
      && t.ironic.value == s.ironic.value.(status := Unanswered(s.ironic.value.generation, w.ToString(), v.ToString()))
  {
    assert w.ToString() != "";
    ParsePrint(w);
    assert input.faults(GetIronic).Acked? && input.faults(WriteRequested).Unacked?;
    hide Version.ToString, ParseVersion, EnsureApiSecret, LinkAll, Install, Helps;
    var announced := Announce(s, w.ToString(), input);
    assert announced.Stop?;
    assert RequestVersion(s, w, input) == announced;
    hide RequestVersion, Announce;
    assert Prepare(s, w, input) == announced;
  }

  // What the write leaves that records a new request.
  function Unanswered(generation: nat, requested: string, installed: string): Status {
    Status(Some(Condition(false, InProgress, NewVersionRequested, generation)), requested, installed)
  }

  lemma FinalizerFirst(ironic: Ironic, secrets: Secrets, input: Input)
    requires !ironic.finalizer && !ironic.deleting && forall call | call != WriteRequested :: input.faults(call).Acked?
    ensures Reconcile(Bare(ironic, secrets, []), input).store == Bare(ironic.(finalizer := true), secrets, [])
  {
  }

  /* ---- The run ---- */

  // Version v is installed; w is requested, but the answer to the write that
  // records the request is lost; the request is taken back; and the next
  // reconcile reports Ready=True with w still recorded as requested.
  lemma RevertedEndsReady(
    ironic: Ironic, data: Data, v: ParsedVersion, w: ParsedVersion, works: Input, unanswered: Input)
    returns (states: seq<Store>, moves: seq<Move>)
    requires New(ironic) && v.ToString() != w.ToString()
    requires Helps(works, true, v, data) && Helps(unanswered, false, v, data)
    ensures Run(states, moves) && |moves| == 8 && states[0].ironic == Some(ironic)
    ensures moves[7].Reconciled? && ReadyMatches(states[7]) && Reverts(states[7], moves[7].input)
    ensures states[8].ironic.Some? && states[8].ironic.value.status.Ready()
    ensures states[8].ironic.value.status.requested == w.ToString()
    ensures states[8].ironic.value.status.installed == v.ToString()
  {
    hide Reconcile, DeploymentProgress, Version.ToString, SecretNeedsUpdating;
    var secrets := Credentials(ironic, data, []);
    var template := Desired(v.ToString(), ironic.spec, data);
    var finalized := ironic.(finalizer := true);
    FinalizerFirst(ironic, secrets, works);
    FirstDeployment(finalized, data, v, works);
    var deployed := Reconcile(Bare(finalized, secrets, []), works).store;
    var owned := Credentials(ironic, data, [ironic.uid]);
    var running := Deployed(Bare(deployed.ironic.value, owned, deployed.journal), template, RUNNING, true);
    ReportsReady(deployed.ironic.value, data, v, works, deployed.journal);
    var ready := Reconcile(running, works).store;
    var asking := Asking(ready.ironic.value, w.ToString());
    var asked := ready.(ironic := Some(asking));
    AnnouncesUnanswered(asked, data, v, w, unanswered);
    var announced := Reconcile(asked, unanswered).store;
    var reverting := Asking(announced.ironic.value, "");
    var reverted := announced.(ironic := Some(reverting));
    ReportsReady(reverting, data, v, works, announced.journal);
    assert reverted == Deployed(Bare(reverting, owned, announced.journal), template, RUNNING, true);
    moves := [Reconciled(works), Reconciled(works), Outside, Reconciled(works), Outside, Reconciled(unanswered),
              Outside, Reconciled(works)];
    states := [Bare(ironic, secrets, []), Bare(finalized, secrets, []), deployed, running, ready, asked, announced,
               reverted, Reconcile(reverted, works).store];
  }

  // The user asks for a version.
  function Asking(ironic: Ironic, version: string): Ironic {
    ironic.(spec := ironic.spec.(version := version), generation := ironic.generation + 1)
  }

  // There are such objects and inputs, with a lawful crypto library.
  lemma UpToDate(crypt: Crypt) returns (data: Data)
    requires crypt.matches("h", "p")
    ensures !SecretNeedsUpdating(data, crypt)
  {
    data := map[USERNAME := "u", PASSWORD := "p", HTPASSWD := "u:h"];
    Trimmed("u");
    Trimmed("p");
    CutFirst("u", ':', "h");
    assert "u" + [':'] + "h" == "u:h";
    assert USERNAME != PASSWORD && PASSWORD != HTPASSWD by {
      assert |USERNAME| == |PASSWORD| && USERNAME[0] != PASSWORD[0] && PASSWORD[0] != HTPASSWD[0];
    }
    assert USERNAME[0] != HTPASSWD[0];
    assert data[HTPASSWD] == "u:h" && data[USERNAME] == "u" && data[PASSWORD] == "p";
    hide Cut, NormalizeSecretValue;
  }

  lemma Trimmed(s: string)
    requires |s| == 1 && !Blank(s[0])
    ensures NormalizeSecretValue(s) == s
  {
    assert TrimLeft(s) == s && TrimRight(s) == s;
  }

  // A lawful library, whose one hash fits everything.
  function SomeCrypt(): (crypt: Crypt)
    ensures crypt.Lawful() && crypt.matches("h", "p")
  {
    Crypt((_, _) => Some("h"), (hash, _) => hash == "h", c => c != ':')
  }

  function Helper(answered: bool, v: ParsedVersion): Input {
    Input(call => if call == WriteRequested && !answered then Unacked else Acked, {}, v, "x", None, "", _ => true,
          SomeCrypt())
  }

  lemma HelperHelps(answered: bool, v: ParsedVersion, data: Data)
    requires !SecretNeedsUpdating(data, SomeCrypt())
    ensures Helps(Helper(answered, v), answered, v, data)
  {
    hide SecretNeedsUpdating, SomeCrypt;
  }

  function SomeIronic(): Ironic {
    Ironic("i", 0, false, false, 1,
           Spec("", false, false, "c", "", None, None, None, false, None, false, false, "", ""), EMPTY_STATUS)
  }

  // So for any two versions there is a run that ends with Ready=True, one of
  // them installed and the other one requested.
  lemma SomeRunEndsReady(v: ParsedVersion, w: ParsedVersion) returns (states: seq<Store>, moves: seq<Move>)
    requires v != w
    ensures Run(states, moves) && |moves| == 8 && states[8].ironic.Some?
    ensures states[8].ironic.value.status.Ready() && !ReadyMatches(states[8])
    ensures states[8].ironic.value.status.requested == w.ToString()
    ensures states[8].ironic.value.status.installed == v.ToString()
  {
    assert New(SomeIronic());
    hide SecretNeedsUpdating, Version.ToString, Run, Reverts, New, Helps, SomeCrypt, SomeIronic, Crypt.Lawful;
    if v.ToString() == w.ToString() {
      PrintInjective(v, w);
    }
    var data := UpToDate(SomeCrypt());
    HelperHelps(true, v, data);
    HelperHelps(false, v, data);
    states, moves := RevertedEndsReady(SomeIronic(), data, v, w, Helper(true, v), Helper(false, v));
  }
}
