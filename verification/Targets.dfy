// What the spec of an object asks for, spelled out field by field, without the
// functions that the reconcile computes it with.
module Targets {
  import opened Htpasswd
  import opened Cluster
  import opened Workloads

  /* ---- Names ---- */

  // The switch secrets go by the user's names, or by names of their own.
  ghost function ConfigName(ironic: Ironic): string {
    var n := ironic.spec.networking;
    if n.Some? && n.value.configName != "" then n.value.configName else ironic.name + "-switch-config"
  }

  ghost function CredentialsName(ironic: Ironic): string {
    var n := ironic.spec.networking;
    if n.Some? && n.value.credentialsName != "" then n.value.credentialsName else ironic.name + "-switch-credentials"
  }

  // A job is named after its phase and the two versions that it leads from
  // and to.
  ghost function JobFrom(installed: string, phase: JobPhase, version: string): JobKey {
    JobKey(phase, if installed == "" then "none" else installed, version)
  }

  // Some complete condition holds, and no failure was reported before it.
  ghost predicate Complete(job: Job) {
    exists i: nat :: EndsAt(job.conditions, i) && job.conditions[i].JobComplete?
  }

  ghost function StoredData(secrets: Secrets, name: string): Data {
    if name in secrets then secrets[name].data else map[]
  }

  /* ---- Objects ---- */

  ghost predicate TemplateAsked(s: Store, version: string, template: Template)
    requires s.ironic.Some?
  {
    var spec := s.ironic.value.spec;
    && template.version == version && template.spec == spec
    && (spec.apiCredentials != "" ==> template.api == StoredData(s.secrets, spec.apiCredentials))
    && template.tls == (if spec.certificate == "" then map[] else StoredData(s.secrets, spec.certificate))
  }

  // One workload, of the kind that the spec asks for.
  ghost predicate WorkloadAsked(s: Store, version: string)
    requires s.ironic.Some?
  {
    if s.ironic.value.spec.highAvailability then
      s.deployment.None? && s.daemonSet.Some? && TemplateAsked(s, version, s.daemonSet.value.template)
    else
      s.daemonSet.None? && s.deployment.Some? && TemplateAsked(s, version, s.deployment.value.template)
  }

  ghost predicate WorkloadUp(s: Store)
    requires s.ironic.Some?
  {
    if s.ironic.value.spec.highAvailability then s.daemonSet.Some? && DaemonSetUp(s.daemonSet.value)
    else s.deployment.Some? && DeploymentUp(s.deployment.value)
  }

  ghost predicate ServiceAsked(s: Store, version: string)
    requires s.ironic.Some?
  {
    var spec := s.ironic.value.spec;
    && s.service.Some?
    && s.service.value.version == version
    && (s.service.value.ports.tls <==> spec.certificate != "")
    && (s.service.value.ports.images <==> !spec.highAvailability)
    && (s.service.value.ports.metrics <==> spec.metrics)
  }

  ghost predicate IngressAsked(s: Store, version: string)
    requires s.ironic.Some?
  {
    var spec := s.ironic.value.spec;
    spec.ingress.Some? ==>
      && s.ingress.Some?
      && s.ingress.value.version == version && s.ingress.value.host == spec.ingress.value
      && (s.ingress.value.tls <==> spec.certificate != "")
  }

  ghost predicate MonitorAsked(s: Store)
    requires s.ironic.Some?
  {
    s.monitor <==> s.ironic.value.spec.metrics && !s.ironic.value.spec.disableServiceMonitor
  }

  ghost predicate NetworkingAsked(s: Store, version: string)
    requires s.ironic.Some?
  {
    var ironic := s.ironic.value;
    var certificate := ironic.spec.certificate;
    if ironic.spec.networking.Some? && ironic.spec.networking.value.enabled then
      && s.networkService && s.networkDeployment.Some?
      && var template := s.networkDeployment.value.template;
      && template.version == version && template.spec == ironic.spec
      && template.tls == (if certificate == "" then map[] else StoredData(s.secrets, certificate))
      && template.config == StoredData(s.secrets, ConfigName(ironic))
      && template.credentials == StoredData(s.secrets, CredentialsName(ironic))
    else s.networkDeployment.None? && !s.networkService
  }

  ghost predicate NetworkingUp(s: Store) {
    s.networkDeployment.Some? ==> s.networkDeployment.value.readyReplicas > 0
  }

  // Everything that the spec asks for has been written.
  ghost predicate AllAsked(s: Store, version: string)
    requires s.ironic.Some?
  {
    && WorkloadAsked(s, version) && ServiceAsked(s, version) && IngressAsked(s, version) && MonitorAsked(s)
    && NetworkingAsked(s, version)
  }

  // And it runs.
  ghost predicate AllUp(s: Store)
    requires s.ironic.Some?
  {
    WorkloadUp(s) && NetworkingUp(s) && s.service.Some? && s.service.value.clusterIPs
  }
}
