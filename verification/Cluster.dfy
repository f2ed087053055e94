// The Kubernetes objects that one Ironic resource leads to, the API calls that
// the controller makes on them, and what can become of such a call.
module Cluster {
  import opened Options
  import opened Versions
  import opened Htpasswd

  /* ---- API calls and their fate ---- */

  // A call is acknowledged, or fails before taking effect, or takes effect
  // although the caller only sees an error.
  datatype Fate = Acked | Lost | Unacked {
    predicate Failed() {
      !Acked?
    }

    predicate Applied() {
      !Lost?
    }
  }

  datatype Role = ApiCredentials | Certificate | BmcCA | TrustedCA | SwitchConfig | SwitchCredentials

  datatype JobPhase = Pre | Post

  // Every place of one reconcile that calls the API; each is passed at most once.
  datatype Call =
    | GetIronic | AddFinalizer | RemoveFinalizer | UpdateIronic
    | WriteNotReady | WriteRequested | WriteOutcome
    | CreateApiSecret | UpdateApiSecret
    | ReadCache(role: Role) | ReadApi(role: Role) | Claim(role: Role)
    | GetSwitch(role: Role) | CreateSwitch(role: Role) | DeleteSwitch(role: Role)
    | GetNetworkDeployment | WriteNetworkDeployment | DeleteNetworkDeployment | PollNetworkDeployment
    | GetNetworkService | WriteNetworkService | DeleteNetworkService
    | GetJob(phase: JobPhase) | WriteJob(phase: JobPhase)
    | GetWorkload | WriteWorkload | DeleteOtherWorkload
    | GetService | WriteService
    | GetIngress | WriteIngress
    | GetMonitor | WriteMonitor | DeleteMonitor

  type Faults = Call -> Fate

  // controllerutil.CreateOrUpdate: read the live object, let the caller change
  // it, write it back only if that made a difference.
  datatype Written = Same | Wrote | Errored

  function CreateOrUpdate<T(==)>(live: Option<T>, desired: T, get: Fate, write: Fate): (r: (Option<T>, Written))
    ensures r.1.Same? ==> r.0 == live == Some(desired)
    ensures r.1.Wrote? ==> r.0 == Some(desired) && live != Some(desired)
    ensures r.0 == live || r.0 == Some(desired)
    ensures !get.Failed() && !write.Failed() ==> !r.1.Errored?
  {
    if get.Failed() then (live, Errored)
    else if live == Some(desired) then (live, Same)
    else (if write.Applied() then Some(desired) else live, if write.Failed() then Errored else Wrote)
  }

  // The same for an object that the caller replaces as a whole, without what
  // the server has filled in: there is always a difference to write back. The
  // result tells whether a call failed.
  function Replace<T>(live: Option<T>, desired: T, get: Fate, write: Fate): (r: (Option<T>, bool))
    ensures !r.1 ==> r.0 == Some(desired)
    ensures r.0 == live || r.0 == Some(desired)
    ensures r.1 <==> get.Failed() || write.Failed()
  {
    if get.Failed() then (live, true)
    else (if write.Applied() then Some(desired) else live, write.Failed())
  }

  /* ---- Secrets and config maps ---- */

  type Uid = nat

  // Either kind of linked object. The environment label admits it to the
  // operator, the managed label marks what the operator itself created.
  datatype Secret = Secret(environment: bool, managed: bool, owners: seq<Uid>, data: Data)

  type Secrets = map<string, Secret>

  /* ---- The Ironic object ---- */

  datatype Kind = SecretKind | ConfigMapKind | OtherKind
  datatype Reference = Reference(kind: Kind, name: string)
  datatype NetworkingService = NetworkingService(enabled: bool, configName: string, credentialsName: string)

  // The fields that the control flow looks at; what else the upgrade jobs are
  // rendered from is in jobSettings, and all the rest in settings.
  datatype Spec = Spec(
    version: string,
    database: bool,
    highAvailability: bool,
    apiCredentials: string,
    certificate: string,
    bmcCA: Option<Reference>,
    trustedCA: Option<Reference>,
    networking: Option<NetworkingService>,
    extraRanges: bool,
    ingress: Option<string>,
    metrics: bool,
    disableServiceMonitor: bool,
    jobSettings: string,
    settings: string)
  {
    predicate Monitored() {
      metrics && !disableServiceMonitor
    }

    predicate NetworkingEnabled() {
      networking.Some? && networking.value.enabled
    }
  }

  datatype Reason = Failed | InProgress | Available

  datatype Message =
    | NewVersionRequested | BadVersion | DowngradeRefused | VersionTooOld
    | BadCredentials | BadLink(role: Role)
    | ResourcesAvailable | BeingUpdated | InvalidSpec
    | JobNotComplete(phase: JobPhase) | JobFailed(phase: JobPhase)
    | NotObserved | NotAvailable | StoppedProgressing | NoClusterIPs

  datatype Condition = Condition(ready: bool, reason: Reason, message: Message, generation: nat)

  datatype Status = Status(condition: Option<Condition>, requested: string, installed: string) {
    predicate Ready() {
      condition.Some? && condition.value.ready
    }
  }

  const EMPTY_STATUS := Status(None, "", "")

  datatype Ironic = Ironic(name: string, uid: Uid, finalizer: bool, deleting: bool, generation: nat, spec: Spec,
                           status: Status)

  /* ---- Owned resources ---- */

  // What a pod is rendered from: a version, the spec, and the contents of the
  // secrets whose hash the pod carries as an annotation.
  datatype Template = Template(version: string, spec: Spec, api: Data, tls: Data)
  datatype JobTemplate = JobTemplate(version: string, settings: string)
  datatype NetworkTemplate = NetworkTemplate(version: string, spec: Spec, tls: Data, config: Data, credentials: Data)

  function Contents(secrets: Secrets, name: string): Data {
    if name != "" && name in secrets then secrets[name].data else map[]
  }

  datatype DeploymentConditionKind = Progressing | DeploymentAvailable | ReplicaFailure
  datatype DeploymentReason = ProgressDeadlineExceeded | NewReplicaSetAvailable | OtherReason
  datatype ConditionStatus = True | False | Unknown
  datatype DeploymentCondition = DeploymentCondition(kind: DeploymentConditionKind, status: ConditionStatus,
                                                     reason: DeploymentReason)
  datatype DeploymentStatus = DeploymentStatus(observed: nat, conditions: seq<DeploymentCondition>, replicas: nat,
                                               updatedReplicas: nat)
  datatype Deployment = Deployment(template: Template, generation: nat, status: DeploymentStatus)

  datatype DaemonSetStatus = DaemonSetStatus(observed: nat, unavailable: nat, updated: nat, desired: nat)
  datatype DaemonSet = DaemonSet(template: Template, generation: nat, status: DaemonSetStatus)

  datatype JobCondition = JobComplete(status: bool) | JobFailure(status: bool)
  datatype JobKey = JobKey(phase: JobPhase, from: string, to: string)
  datatype Job = Job(template: JobTemplate, conditions: seq<JobCondition>)

  datatype Ports = Ports(tls: bool, images: bool, metrics: bool)
  datatype Service = Service(version: string, ports: Ports, clusterIPs: bool)
  datatype Ingress = Ingress(version: string, host: string, tls: bool)

  datatype NetworkDeployment = NetworkDeployment(template: NetworkTemplate, readyReplicas: nat)

  /* ---- The whole store ---- */

  // What the controller has done, in order: its own reads of finished jobs,
  // and the writes that the ordering guarantees are about.
  datatype Event =
    | JobSeenComplete(job: JobKey)
    | JobCreated(job: JobKey)
    | WorkloadWritten(version: string)
    | StatusWritten(before: Status, after: Status)

  datatype Store = Store(
    ironic: Option<Ironic>,
    secrets: Secrets,
    configMaps: Secrets,
    jobs: map<JobKey, Job>,
    deployment: Option<Deployment>,
    daemonSet: Option<DaemonSet>,
    service: Option<Service>,
    ingress: Option<Ingress>,
    monitor: bool,
    networkDeployment: Option<NetworkDeployment>,
    networkService: bool,
    journal: seq<Event>)

  // The template of the Ironic pods for one version.
  function IronicTemplate(s: Store, version: string): Template
    requires s.ironic.Some?
  {
    var spec := s.ironic.value.spec;
    Template(version, spec, Contents(s.secrets, spec.apiCredentials), Contents(s.secrets, spec.certificate))
  }

  type Name = s: string | s != "" witness "x"

  type ParsedVersion = v: Version | Parsed(v) witness VERSION_LATEST

  // What one reconcile gets from outside: the fate of its calls, the names
  // that the label-filtered cache shows, the operator's default version,
  // random data, the result of validating a spec, and the crypto library.
  datatype Input = Input(
    faults: Faults,
    cache: set<string>,
    defaultVersion: ParsedVersion,
    freshName: Name,
    password: Option<string>,
    salt: string,
    valid: Spec -> bool,
    crypt: Crypt)

  // The API server: the live objects, updated in place by each call.
  class Api {
    var ironic: Option<Ironic>
    var secrets: Secrets
    var configMaps: Secrets
    var jobs: map<JobKey, Job>
    var deployment: Option<Deployment>
    var daemonSet: Option<DaemonSet>
    var service: Option<Service>
    var ingress: Option<Ingress>
    var monitor: bool
    var networkDeployment: Option<NetworkDeployment>
    var networkService: bool
    ghost var journal: seq<Event>

    ghost function Snapshot(): Store
      reads this
    {
      Store(ironic, secrets, configMaps, jobs, deployment, daemonSet, service, ingress, monitor,
            networkDeployment, networkService, journal)
    }
  }

  /* ---- Results of the phases of a reconcile ---- */

  // Progress of the deployment (pkg/ironic/status.go), with the transient
  // errors that Go returns beside it.
  datatype Progress = Ready | Updating | Waiting(message: Message) | Fatal(message: Message) | Transient {
    predicate NeedsRequeue() {
      Updating? || Transient?
    }
  }

  type Unfinished = p: Progress | !p.Ready? witness Transient

  // One phase of deploying: passed, or holding the reconcile up.
  datatype Stage = Passed(store: Store) | Held(store: Store, progress: Unfinished) {
    predicate IsFailure() {
      Held?
    }

    function PropagateFailure(): Stage
      requires Held?
    {
      this
    }

    function Extract(): Store
      requires Passed?
    {
      store
    }
  }

  // One phase of the whole reconcile: carry on, or return to the caller.
  datatype Flow = Go(store: Store) | Stop(store: Store, requeue: bool, failed: bool) {
    predicate IsFailure() {
      Stop?
    }

    function PropagateFailure(): Flow
      requires Stop?
    {
      this
    }

    function Extract(): Store
      requires Go?
    {
      store
    }
  }
}
