// pkg/ironic/networking_deployment.go: the deployment and the service of the
// networking service.
module Networking {
  import opened Options
  import opened Cluster
  import opened SwitchSecrets

  function NetworkDesired(live: Option<NetworkDeployment>, template: NetworkTemplate): NetworkDeployment {
    NetworkDeployment(template, if live.Some? then live.value.readyReplicas else 0)
  }

  function RemoveNetworkingResources(s: Store, input: Input): (r: Stage)
    ensures r.store == s.(networkDeployment := r.store.networkDeployment, networkService := r.store.networkService)
    ensures r.Held? ==> r.progress.Transient?
  {
    if input.faults(GetNetworkDeployment).Failed() then Held(s, Transient)
    else
      var fate := input.faults(DeleteNetworkDeployment);
      var t := if s.networkDeployment.Some? && fate.Applied() then s.(networkDeployment := None) else s;
      if s.networkDeployment.Some? && fate.Failed() then Held(t, Transient)
      else if input.faults(GetNetworkService).Failed() then Held(t, Transient)
      else
        var fate := input.faults(DeleteNetworkService);
        var u := if t.networkService && fate.Applied() then t.(networkService := false) else t;
        if t.networkService && fate.Failed() then Held(u, Transient) else Passed(u)
  }

  // The deployment and the service are written in full on every pass, as the
  // server has filled in what was left out; then the deployment is polled for
  // a ready replica.
  function EnsureIronicNetworking(s: Store, switches: Switches, version: string, input: Input): (r: Stage)
    requires s.ironic.Some?
    ensures r.store.ironic == s.ironic
  {
    var spec := s.ironic.value.spec;
    if !spec.NetworkingEnabled() then RemoveNetworkingResources(s, input)
    else
      var template := NetworkTemplate(version, spec, Contents(s.secrets, spec.certificate),
        if switches.Provided? then switches.config.data else map[],
        if switches.Provided? then switches.credentials.data else map[]);
      var deployment := Replace(s.networkDeployment, NetworkDesired(s.networkDeployment, template),
                                input.faults(GetNetworkDeployment), input.faults(WriteNetworkDeployment));
      var t := s.(networkDeployment := deployment.0);
      if deployment.1 then Held(t, Transient)
      else
        var service := Replace(if s.networkService then Some(true) else None, true,
                               input.faults(GetNetworkService), input.faults(WriteNetworkService));
        var u := t.(networkService := service.0.Some?);
        if service.1 || input.faults(PollNetworkDeployment).Failed() then Held(u, Transient)
        else if deployment.0.value.readyReplicas < 1 then Held(u, Waiting(NotAvailable))
        else Passed(u)
  }

  // Everything of the networking service, when the Ironic object is deleted.
  function RemoveIronicNetworking(s: Store, input: Input): (r: Stage)
    requires s.ironic.Some?
    ensures r.store.ironic == s.ironic
  {
    var t :- RemoveNetworkingResources(s, input);
    var config := EnsureSwitchSecretDeleted(t.secrets, s.ironic.value, SwitchConfig, input);
    var u := t.(secrets := config.0);
    if config.1 then Held(u, Transient)
    else
      var credentials := EnsureSwitchSecretDeleted(u.secrets, s.ironic.value, SwitchCredentials, input);
      var w := u.(secrets := credentials.0);
      if credentials.1 then Held(w, Transient) else Passed(w)
  }

  /* ---- The code ---- */

  method RemoveResources(api: Api, input: Input) returns (ghost stage: Stage, failed: bool)
    modifies api`networkDeployment, api`networkService
    ensures stage == RemoveNetworkingResources(old(api.Snapshot()), input)
    ensures api.Snapshot() == stage.store
    ensures failed <==> stage.Held?
  {
    stage := RemoveNetworkingResources(api.Snapshot(), input);
    if input.faults(GetNetworkDeployment).Failed() {
      return stage, true;
    }
    if api.networkDeployment.Some? {
      var fate := input.faults(DeleteNetworkDeployment);
      if fate.Applied() {
        api.networkDeployment := None;
      }
      if fate.Failed() {
        return stage, true;
      }
    }
    if input.faults(GetNetworkService).Failed() {
      return stage, true;
    }
    if api.networkService {
      var fate := input.faults(DeleteNetworkService);
      if fate.Applied() {
        api.networkService := false;
      }
      if fate.Failed() {
        return stage, true;
      }
    }
    return stage, false;
  }

  method EnsureNetworking(api: Api, ironic: Ironic, switches: Switches, version: string, input: Input)
    returns (progress: Progress)
    requires api.ironic == Some(ironic)
    modifies api`networkDeployment, api`networkService
    ensures var stage := EnsureIronicNetworking(old(api.Snapshot()), switches, version, input);
      && api.Snapshot() == stage.store
      && (progress.Ready? <==> stage.Passed?)
      && (stage.Held? ==> progress == stage.progress)
  {
    if !ironic.spec.NetworkingEnabled() {
      var failed;
      ghost var stage;
      stage, failed := RemoveResources(api, input);
      return if failed then Transient else Ready;
    }
    var template := NetworkTemplate(version, ironic.spec, Contents(api.secrets, ironic.spec.certificate),
      if switches.Provided? then switches.config.data else map[],
      if switches.Provided? then switches.credentials.data else map[]);
    var deployment := Replace(api.networkDeployment, NetworkDesired(api.networkDeployment, template),
                              input.faults(GetNetworkDeployment), input.faults(WriteNetworkDeployment));
    api.networkDeployment := deployment.0;
    if deployment.1 {
      return Transient;
    }
    var service := Replace(if api.networkService then Some(true) else None, true,
                           input.faults(GetNetworkService), input.faults(WriteNetworkService));
    api.networkService := service.0.Some?;
    if service.1 {
      return Transient;
    }
    if input.faults(PollNetworkDeployment).Failed() {
      return Transient;
    }
    if api.networkDeployment.value.readyReplicas < 1 {
      return Waiting(NotAvailable);
    }
    return Ready;
  }

  method RemoveNetworking(api: Api, ironic: Ironic, input: Input) returns (failed: bool)
    requires api.ironic == Some(ironic)
    modifies api`networkDeployment, api`networkService, api`secrets
    ensures var stage := RemoveIronicNetworking(old(api.Snapshot()), input);
      && api.Snapshot() == stage.store
      && (failed <==> stage.Held?)
  {
    ghost var stage;
    stage, failed := RemoveResources(api, input);
    if failed {
      return;
    }
    failed := DeleteSwitchSecret(api, ironic, SwitchConfig, input);
    if failed {
      return;
    }
    failed := DeleteSwitchSecret(api, ironic, SwitchCredentials, input);
  }

  /* ---- Properties ---- */

  // Removal that reports success has removed both objects and exactly the
  // switch secrets that deleting finds; removal never creates or changes
  // anything, even when a call fails half way.
  lemma RemovalIsComplete(s: Store, input: Input)
    requires s.ironic.Some?
    ensures var stage := RemoveIronicNetworking(s, input);
      && (stage.store.networkDeployment == None || stage.store.networkDeployment == s.networkDeployment)
      && (stage.store.networkService ==> s.networkService)
      && OnlyFewer(s.secrets, stage.store.secrets)
      && (stage.Passed? ==>
            && stage.store.networkDeployment.None? && !stage.store.networkService
            && Cleared(s.secrets, stage.store.secrets, s.ironic.value, input))
  {
    hide EnsureSwitchSecretDeleted, Cleared;
    DeletedTogether(s.secrets, s.ironic.value, input);
  }
}
