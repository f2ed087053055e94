// pkg/ironic/ironic.go, ingress.go and servicemonitor.go: the ordered phases
// that deploy one version of Ironic.
module Deploy {
  import opened Options
  import opened Cluster
  import opened Workloads
  import opened Upgrades

  /* ---- What each object should look like ---- */

  // A changed template starts a new generation; the status is the cluster's.
  function DesiredDeployment(live: Option<Deployment>, template: Template): Deployment {
    match live
    case None => Deployment(template, 1, DeploymentStatus(0, [], 0, 0))
    case Some(d) => if d.template == template then d else d.(template := template, generation := d.generation + 1)
  }

  function DesiredDaemonSet(live: Option<DaemonSet>, template: Template): DaemonSet {
    match live
    case None => DaemonSet(template, 1, DaemonSetStatus(0, 0, 0, 0))
    case Some(d) => if d.template == template then d else d.(template := template, generation := d.generation + 1)
  }

  function DesiredService(live: Option<Service>, spec: Spec, version: string): Service {
    Service(version, Ports(spec.certificate != "", !spec.highAvailability, spec.metrics),
            if live.Some? then live.value.clusterIPs else false)
  }

  function DesiredIngress(spec: Spec, version: string): Ingress
    requires spec.ingress.Some?
  {
    Ingress(version, spec.ingress.value, spec.certificate != "")
  }

  /* ---- The phases ---- */

  // The workload of the other kind goes first: the two never run together.
  function RemoveOtherWorkload(s: Store, input: Input): (r: Stage)
    requires s.ironic.Some?
    ensures r.store.ironic == s.ironic
  {
    var fate := input.faults(DeleteOtherWorkload);
    var t := if !fate.Applied() then s
             else if s.ironic.value.spec.highAvailability then s.(deployment := None)
             else s.(daemonSet := None);
    if fate.Failed() then Held(t, Transient) else Passed(t)
  }

  // The workload, and how far it has come.
  function EnsureWorkload(s: Store, version: string, input: Input): (r: (Store, Progress))
    requires s.ironic.Some?
    ensures r.0.ironic == s.ironic
  {
    var spec := s.ironic.value.spec;
    var template := IronicTemplate(s, version);
    var get, write := input.faults(GetWorkload), input.faults(WriteWorkload);
    if spec.highAvailability then
      var r := CreateOrUpdate(s.daemonSet, DesiredDaemonSet(s.daemonSet, template), get, write);
      (if r.0 == s.daemonSet then s else s.(daemonSet := r.0, journal := s.journal + [WorkloadWritten(version)]),
       match r.1 case Errored => Transient case Wrote => Updating case Same => DaemonSetProgress(r.0.value))
    else
      var r := CreateOrUpdate(s.deployment, DesiredDeployment(s.deployment, template), get, write);
      (if r.0 == s.deployment then s else s.(deployment := r.0, journal := s.journal + [WorkloadWritten(version)]),
       match r.1 case Errored => Transient case Wrote => Updating case Same => DeploymentProgress(r.0.value))
  }

  function EnsureService(s: Store, version: string, input: Input): (r: Stage)
    requires s.ironic.Some?
    ensures r.store.ironic == s.ironic
  {
    var r := CreateOrUpdate(s.service, DesiredService(s.service, s.ironic.value.spec, version),
                            input.faults(GetService), input.faults(WriteService));
    var t := s.(service := r.0);
    match r.1
    case Errored => Held(t, Transient)
    case Wrote => Held(t, Updating)
    case Same => if ServiceProgress(r.0.value).Ready? then Passed(t) else Held(t, ServiceProgress(r.0.value))
  }

  function EnsureIngress(s: Store, version: string, input: Input): (r: Stage)
    requires s.ironic.Some?
    ensures r.store.ironic == s.ironic
  {
    if s.ironic.value.spec.ingress.None? then Passed(s)
    else
      var r := CreateOrUpdate(s.ingress, DesiredIngress(s.ironic.value.spec, version),
                              input.faults(GetIngress), input.faults(WriteIngress));
      var t := s.(ingress := r.0);
      match r.1
      case Errored => Held(t, Transient)
      case Wrote => Held(t, Updating)
      case Same => Passed(t)
  }

  function EnsureMonitor(s: Store, input: Input): (r: Stage)
    requires s.ironic.Some?
    ensures r.store.ironic == s.ironic
  {
    if !s.ironic.value.spec.Monitored() then
      var fate := input.faults(DeleteMonitor);
      var t := if fate.Applied() then s.(monitor := false) else s;
      if fate.Failed() then Held(t, Transient) else Passed(t)
    else
      var r := CreateOrUpdate(if s.monitor then Some(true) else None, true,
                              input.faults(GetMonitor), input.faults(WriteMonitor));
      var t := s.(monitor := r.0.Some?);
      match r.1
      case Errored => Held(t, Transient)
      case Wrote => Held(t, Updating)
      case Same => Passed(t)
  }

  // Everything after the workload; passed when all of it is in place.
  function EnsureAccess(s: Store, version: string, input: Input): (r: Stage)
    requires s.ironic.Some?
    ensures r.store.ironic == s.ironic
  {
    var t :- EnsureService(s, version, input);
    var u :- EnsureIngress(t, version, input);
    var w :- EnsureUpgradeJob(u, Post, version, input);
    EnsureMonitor(w, input)
  }

  function EnsureIronic(s: Store, version: string, input: Input): (r: (Store, Progress))
    requires s.ironic.Some?
    ensures r.0.ironic == s.ironic
  {
    if !input.valid(s.ironic.value.spec) then (s, Fatal(InvalidSpec))
    else
      match EnsureUpgradeJob(s, Pre, version, input)
      case Held(t, progress) => (t, progress)
      case Passed(t) =>
        match RemoveOtherWorkload(t, input)
        case Held(u, progress) => (u, progress)
        case Passed(u) =>
          var (w, progress) := EnsureWorkload(u, version, input);
          if progress.Fatal? || progress.Transient? then (w, progress)
          else
            match EnsureAccess(w, version, input)
            case Held(x, held) => (x, held)
            case Passed(x) => (x, progress)
  }

  /* ---- The code ---- */

  method EnsureDaemonSet(api: Api, ironic: Ironic, version: string, input: Input) returns (progress: Progress)
    requires api.ironic == Some(ironic) && ironic.spec.highAvailability
    modifies api`daemonSet, api`journal
    ensures (api.Snapshot(), progress) == EnsureWorkload(old(api.Snapshot()), version, input)
  {
    var template := Template(version, ironic.spec, Contents(api.secrets, ironic.spec.apiCredentials),
                             Contents(api.secrets, ironic.spec.certificate));
    var r := CreateOrUpdate(api.daemonSet, DesiredDaemonSet(api.daemonSet, template),
                            input.faults(GetWorkload), input.faults(WriteWorkload));
    if r.0 != api.daemonSet {
      api.daemonSet := r.0;
      api.journal := api.journal + [WorkloadWritten(version)];
    }
    if r.1.Errored? {
      return Transient;
    }
    if r.1.Wrote? {
      return Updating;
    }
    return DaemonSetProgress(r.0.value);
  }

  method EnsureDeployment(api: Api, ironic: Ironic, version: string, input: Input) returns (progress: Progress)
    requires api.ironic == Some(ironic) && !ironic.spec.highAvailability
    modifies api`deployment, api`journal
    ensures (api.Snapshot(), progress) == EnsureWorkload(old(api.Snapshot()), version, input)
  {
    var template := Template(version, ironic.spec, Contents(api.secrets, ironic.spec.apiCredentials),
                             Contents(api.secrets, ironic.spec.certificate));
    var r := CreateOrUpdate(api.deployment, DesiredDeployment(api.deployment, template),
                            input.faults(GetWorkload), input.faults(WriteWorkload));
    if r.0 != api.deployment {
      api.deployment := r.0;
      api.journal := api.journal + [WorkloadWritten(version)];
    }
    if r.1.Errored? {
      return Transient;
    }
    if r.1.Wrote? {
      return Updating;
    }
    progress := GetDeploymentStatus(r.0.value);
  }

  method RemoveOther(api: Api, ironic: Ironic, input: Input) returns (failed: bool)
    requires api.ironic == Some(ironic)
    modifies api`deployment, api`daemonSet
    ensures var stage := RemoveOtherWorkload(old(api.Snapshot()), input);
      && api.Snapshot() == stage.store
      && (failed <==> stage.Held?)
      && (failed ==> stage.progress.Transient?)
  {
    var fate := input.faults(DeleteOtherWorkload);
    if fate.Applied() {
      if ironic.spec.highAvailability {
        api.deployment := None;
      } else {
        api.daemonSet := None;
      }
    }
    return fate.Failed();
  }

  method EnsureIronicService(api: Api, ironic: Ironic, version: string, input: Input) returns (progress: Progress)
    requires api.ironic == Some(ironic)
    modifies api`service
    ensures var stage := EnsureService(old(api.Snapshot()), version, input);
      && api.Snapshot() == stage.store
      && (progress.Ready? <==> stage.Passed?)
      && (stage.Held? ==> progress == stage.progress)
  {
    var r := CreateOrUpdate(api.service, DesiredService(api.service, ironic.spec, version),
                            input.faults(GetService), input.faults(WriteService));
    api.service := r.0;
    if r.1.Wrote? {
      return Updating;
    }
    if r.1.Errored? {
      return Transient;
    }
    return ServiceProgress(r.0.value);
  }

  method EnsureIronicIngress(api: Api, ironic: Ironic, version: string, input: Input) returns (progress: Progress)
    requires api.ironic == Some(ironic)
    modifies api`ingress
    ensures var stage := EnsureIngress(old(api.Snapshot()), version, input);
      && api.Snapshot() == stage.store
      && (progress.Ready? <==> stage.Passed?)
      && (stage.Held? ==> progress == stage.progress)
  {
    if ironic.spec.ingress.None? {
      return Ready;
    }
    var r := CreateOrUpdate(api.ingress, DesiredIngress(ironic.spec, version),
                            input.faults(GetIngress), input.faults(WriteIngress));
    api.ingress := r.0;
    if r.1.Errored? {
      return Transient;
    }
    return if r.1.Wrote? then Updating else Ready;
  }

  method EnsureServiceMonitor(api: Api, ironic: Ironic, input: Input) returns (progress: Progress)
    requires api.ironic == Some(ironic)
    modifies api`monitor
    ensures var stage := EnsureMonitor(old(api.Snapshot()), input);
      && api.Snapshot() == stage.store
      && (progress.Ready? <==> stage.Passed?)
      && (stage.Held? ==> progress == stage.progress)
  {
    if !ironic.spec.Monitored() {
      var fate := input.faults(DeleteMonitor);
      if fate.Applied() {
        api.monitor := false;
      }
      return if fate.Failed() then Transient else Ready;
    }
    var r := CreateOrUpdate(if api.monitor then Some(true) else None, true,
                            input.faults(GetMonitor), input.faults(WriteMonitor));
    api.monitor := r.0.Some?;
    if r.1.Wrote? {
      return Updating;
    }
    return if r.1.Errored? then Transient else Ready;
  }

  // The second half of EnsureIronic, after the workload.
  method EnsureRest(api: Api, ironic: Ironic, version: string, input: Input) returns (status: Progress)
    requires api.ironic == Some(ironic)
    modifies api`jobs, api`journal, api`service, api`ingress, api`monitor
    ensures var stage := EnsureAccess(old(api.Snapshot()), version, input);
      && api.Snapshot() == stage.store
      && (status.Ready? <==> stage.Passed?)
      && (stage.Held? ==> status == stage.progress)
  {
    status := EnsureIronicService(api, ironic, version, input);
    if !status.Ready? {
      return;
    }
    status := EnsureIronicIngress(api, ironic, version, input);
    if !status.Ready? {
      return;
    }
    status := EnsureJob(api, ironic, Post, version, input);
    if !status.Ready? {
      return;
    }
    status := EnsureServiceMonitor(api, ironic, input);
  }

  method Ensure(api: Api, ironic: Ironic, version: string, input: Input) returns (status: Progress)
    requires api.ironic == Some(ironic)
    modifies api`jobs, api`journal, api`deployment, api`daemonSet, api`service, api`ingress, api`monitor
    ensures (api.Snapshot(), status) == EnsureIronic(old(api.Snapshot()), version, input)
  {
    hide EnsureUpgradeJob, RemoveOtherWorkload, EnsureWorkload, EnsureAccess;
    if !input.valid(ironic.spec) {
      return Fatal(InvalidSpec);
    }
    status := EnsureJob(api, ironic, Pre, version, input);
    if !status.Ready? {
      return;
    }
    var failed := RemoveOther(api, ironic, input);
    if failed {
      return Transient;
    }
    if ironic.spec.highAvailability {
      status := EnsureDaemonSet(api, ironic, version, input);
    } else {
      status := EnsureDeployment(api, ironic, version, input);
    }
    if status.Fatal? || status.Transient? {
      return;
    }
    var rest := EnsureRest(api, ironic, version, input);
    if !rest.Ready? {
      return rest;
    }
  }

  /* ---- Properties ---- */

  // A template that is new or changed is not taken for up before the cluster
  // has seen it: it starts a generation of its own.
  lemma ChangesAreNotReady(deployment: Option<Deployment>, daemonSet: Option<DaemonSet>, template: Template)
    requires deployment.Some? ==> deployment.value.status.observed <= deployment.value.generation
    requires daemonSet.Some? ==> daemonSet.value.status.observed <= daemonSet.value.generation
    ensures var d := DesiredDeployment(deployment, template);
      d.template == template && (deployment == Some(d) || !DeploymentProgress(d).Ready?)
    ensures var d := DesiredDaemonSet(daemonSet, template);
      d.template == template && (daemonSet == Some(d) || !DaemonSetProgress(d).Ready?)
  {
  }
}
