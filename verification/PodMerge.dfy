// pkg/ironic/utils.go: updating the pod template of a live object in place,
// without overriding what the server has defaulted.
module PodMerge {
  import opened Options

  /* ---- Values ---- */

  datatype ProbeValue = ProbeValue(
    handler: string,
    initialDelaySeconds: int,
    timeoutSeconds: int,
    failureThreshold: int,
    otherFields: string)

  // A container; its probes are objects of their own in memory.
  datatype Container<P> = Container(
    name: string,
    image: string,
    command: seq<string>,
    ports: seq<string>,
    env: seq<string>,
    envFrom: seq<string>,
    volumeMounts: seq<string>,
    securityContext: string,
    livenessProbe: P,
    readinessProbe: P,
    otherFields: string)

  type ContainerValue = Container<Option<ProbeValue>>

  datatype PodValue = PodValue(
    labels: Option<map<string, string>>,
    annotations: Option<map<string, string>>,
    initContainers: seq<ContainerValue>,
    containers: seq<ContainerValue>,
    volumes: seq<string>,
    hostNetwork: bool,
    dnsPolicy: string,
    nodeSelector: Option<map<string, string>>,
    restartPolicy: string,
    otherFields: string)

  /* ---- What merging computes ---- */

  const PROBE_INITIAL_DELAY := 1
  const PROBE_TIMEOUT := 5
  const PROBE_FAILURE_THRESHOLD := 12

  function Default(value: int, default: int): int {
    if value == 0 then default else value
  }

  function UpdatedProbe(current: Option<ProbeValue>, handler: string): ProbeValue {
    var p := if current.Some? then current.value else ProbeValue("", 0, 0, 0, "");
    ProbeValue(handler, Default(p.initialDelaySeconds, PROBE_INITIAL_DELAY), Default(p.timeoutSeconds, PROBE_TIMEOUT),
               Default(p.failureThreshold, PROBE_FAILURE_THRESHOLD), p.otherFields)
  }

  // Only the handler of the source counts.
  function MergedProbe(target: Option<ProbeValue>, source: Option<ProbeValue>): Option<ProbeValue> {
    if source.None? then None else Some(UpdatedProbe(target, source.value.handler))
  }

  function MergedContainer(dest: ContainerValue, src: ContainerValue): ContainerValue {
    src.(livenessProbe := MergedProbe(dest.livenessProbe, src.livenessProbe),
         readinessProbe := MergedProbe(dest.readinessProbe, src.readinessProbe),
         otherFields := dest.otherFields)
  }

  const NO_CONTAINER: ContainerValue := Container("", "", [], [], [], [], [], "", None, None, "")

  // Lists of another length are built anew.
  function MergedContainers(target: seq<ContainerValue>, source: seq<ContainerValue>): (r: seq<ContainerValue>)
    ensures |r| == |source|
  {
    seq(|source|, k requires 0 <= k < |source| =>
      MergedContainer(if |target| == |source| then target[k] else NO_CONTAINER, source[k]))
  }

  function Copied(target: Option<map<string, string>>, source: Option<map<string, string>>): map<string, string> {
    (if target.Some? then target.value else map[]) + (if source.Some? then source.value else map[])
  }

  function MergedPod(target: PodValue, source: PodValue): PodValue {
    target.(
      labels := Some(Copied(target.labels, source.labels)),
      annotations := if source.annotations.None? then target.annotations
                     else Some(Copied(target.annotations, source.annotations)),
      initContainers := MergedContainers(target.initContainers, source.initContainers),
      containers := MergedContainers(target.containers, source.containers),
      volumes := source.volumes,
      hostNetwork := source.hostNetwork,
      dnsPolicy := if source.dnsPolicy != "" then source.dnsPolicy else target.dnsPolicy,
      nodeSelector := if source.nodeSelector.Some? then source.nodeSelector else target.nodeSelector,
      restartPolicy := if source.restartPolicy != "" then source.restartPolicy else target.restartPolicy)
  }

  /* ---- The objects ---- */

  class Probe {
    var handler: string
    var initialDelaySeconds: int
    var timeoutSeconds: int
    var failureThreshold: int
    var otherFields: string

    constructor ()
      ensures Value() == ProbeValue("", 0, 0, 0, "")
    {
      handler, otherFields := "", "";
      initialDelaySeconds, timeoutSeconds, failureThreshold := 0, 0, 0;
    }

    ghost function Value(): ProbeValue
      reads this
    {
      ProbeValue(handler, initialDelaySeconds, timeoutSeconds, failureThreshold, otherFields)
    }
  }

  type Containers = seq<Container<Probe?>>

  ghost function ViewProbe(p: Probe?): Option<ProbeValue>
    reads p
  {
    if p == null then None else Some(p.Value())
  }

  ghost function ViewContainer(c: Container<Probe?>): ContainerValue
    reads c.livenessProbe, c.readinessProbe
  {
    Container(c.name, c.image, c.command, c.ports, c.env, c.envFrom, c.volumeMounts, c.securityContext,
              ViewProbe(c.livenessProbe), ViewProbe(c.readinessProbe), c.otherFields)
  }

  ghost function Probes(cs: Containers): set<Probe> {
    (set k | 0 <= k < |cs| && cs[k].livenessProbe != null :: cs[k].livenessProbe)
    + (set k | 0 <= k < |cs| && cs[k].readinessProbe != null :: cs[k].readinessProbe)
  }

  lemma ProbesOf(cs: Containers)
    ensures forall k | 0 <= k < |cs| && cs[k].livenessProbe != null :: cs[k].livenessProbe in Probes(cs)
    ensures forall k | 0 <= k < |cs| && cs[k].readinessProbe != null :: cs[k].readinessProbe in Probes(cs)
    ensures forall p | p in Probes(cs) ::
      exists k | 0 <= k < |cs| :: p == cs[k].livenessProbe || p == cs[k].readinessProbe
  {
  }

  lemma ProbesFrom(cs: Containers)
    ensures forall p | p in Probes(cs) ::
      exists k | 0 <= k < |cs| :: p == cs[k].livenessProbe || p == cs[k].readinessProbe
  {
  }

  ghost function View(cs: Containers): (r: seq<ContainerValue>)
    reads Probes(cs)
    ensures |r| == |cs|
    ensures forall k | 0 <= k < |r| :: r[k] == ViewContainer(cs[k])
  {
    seq(|cs|, k requires 0 <= k < |cs| reads Probes(cs) => ViewContainer(cs[k]))
  }

  ghost predicate Different(p: Probe?, q: Probe?) {
    p == q ==> p == null
  }

  // The two containers have no probe in common.
  ghost predicate Apart(c: Container<Probe?>, d: Container<Probe?>) {
    && Different(c.livenessProbe, d.livenessProbe) && Different(c.livenessProbe, d.readinessProbe)
    && Different(c.readinessProbe, d.livenessProbe) && Different(c.readinessProbe, d.readinessProbe)
  }

  // Decoded objects share no probes, within a list or between lists.
  ghost predicate Unshared(cs: Containers) {
    && (forall k | 0 <= k < |cs| :: Different(cs[k].livenessProbe, cs[k].readinessProbe))
    && (forall j, k | 0 <= j < |cs| && 0 <= k < |cs| && j != k :: Apart(cs[j], cs[k]))
  }

  ghost predicate AllApart(cs: Containers, ds: Containers) {
    forall j, k | 0 <= j < |cs| && 0 <= k < |ds| :: Apart(cs[j], ds[k])
  }

  /* ---- The code ---- */

  method UpdateProbe(current: Probe?, handler: string) returns (p: Probe)
    modifies current
    ensures p.Value() == UpdatedProbe(old(ViewProbe(current)), handler)
    ensures if current == null then fresh(p) else p == current
  {
    if current == null {
      p := new Probe();
    } else {
      p := current;
    }
    p.handler := handler;
    if p.initialDelaySeconds == 0 {
      p.initialDelaySeconds := PROBE_INITIAL_DELAY;
    }
    if p.timeoutSeconds == 0 {
      p.timeoutSeconds := PROBE_TIMEOUT;
    }
    if p.failureThreshold == 0 {
      p.failureThreshold := PROBE_FAILURE_THRESHOLD;
    }
  }

  method MergeProbe(current: Probe?, source: Probe?) returns (p: Probe?)
    requires Different(current, source)
    modifies current
    ensures ViewProbe(p) == MergedProbe(old(ViewProbe(current)), old(ViewProbe(source)))
    ensures p == null || p == current || fresh(p)
  {
    if source != null {
      p := UpdateProbe(current, source.handler);
    } else {
      p := null;
    }
  }

  // The probes of c are those of dest, or new.
  twostate predicate Keeps(new c: Container<Probe?>, new dest: Container<Probe?>) {
    && (c.livenessProbe == null || c.livenessProbe == dest.livenessProbe || fresh(c.livenessProbe))
    && (c.readinessProbe == null || c.readinessProbe == dest.readinessProbe || fresh(c.readinessProbe))
  }

  method MergeContainer(dest: Container<Probe?>, src: Container<Probe?>) returns (c: Container<Probe?>)
    requires Different(dest.livenessProbe, dest.readinessProbe) && Apart(dest, src)
    modifies dest.livenessProbe, dest.readinessProbe
    ensures ViewContainer(c) == MergedContainer(old(ViewContainer(dest)), old(ViewContainer(src)))
    ensures Keeps(c, dest) && Different(c.livenessProbe, c.readinessProbe)
  {
    var liveness := MergeProbe(dest.livenessProbe, src.livenessProbe);
    var readiness := MergeProbe(dest.readinessProbe, src.readinessProbe);
    c := dest.(
      name := src.name,
      image := src.image,
      command := src.command,
      ports := src.ports,
      env := src.env,
      envFrom := src.envFrom,
      volumeMounts := src.volumeMounts,
      securityContext := src.securityContext,
      livenessProbe := liveness,
      readinessProbe := readiness);
  }

  method MergeAt(list: Containers, idx: nat, source: Containers) returns (c: Container<Probe?>)
    requires |list| == |source| && idx < |list| && Unshared(list) && AllApart(list, source)
    modifies list[idx].livenessProbe, list[idx].readinessProbe
    ensures ViewContainer(c) == MergedContainer(old(ViewContainer(list[idx])), old(ViewContainer(source[idx])))
    ensures forall k | 0 <= k < |list| && k != idx :: ViewContainer(list[k]) == old(ViewContainer(list[k]))
    ensures forall k | 0 <= k < |source| :: ViewContainer(source[k]) == old(ViewContainer(source[k]))
    ensures Keeps(c, list[idx])
    ensures Unshared(list[idx := c]) && AllApart(list[idx := c], source)
  {
    hide MergedContainer, ViewContainer;
    c := MergeContainer(list[idx], source[idx]);
  }

  method MergeEach(target: Containers, source: Containers) returns (result: Containers)
    requires |target| == |source| && Unshared(target) && AllApart(target, source)
    modifies Probes(target)
    ensures |result| == |source|
    ensures forall k | 0 <= k < |source| ::
      ViewContainer(result[k]) == MergedContainer(old(ViewContainer(target[k])), old(ViewContainer(source[k])))
    ensures forall k | 0 <= k < |source| :: ViewContainer(source[k]) == old(ViewContainer(source[k]))
    ensures Unshared(result) && forall k | 0 <= k < |source| :: Keeps(result[k], target[k])
  {
    ProbesOf(target);
    hide Probes, ViewContainer, MergedContainer, Unshared, AllApart;
    result := target;
    for idx := 0 to |source|
      invariant |result| == |target|
      invariant forall k | idx <= k < |target| ::
        result[k] == target[k] && ViewContainer(target[k]) == old(ViewContainer(target[k]))
      invariant forall k | 0 <= k < |source| :: ViewContainer(source[k]) == old(ViewContainer(source[k]))
      invariant forall k | 0 <= k < idx ::
        ViewContainer(result[k]) == MergedContainer(old(ViewContainer(target[k])), old(ViewContainer(source[k])))
      invariant forall k | 0 <= k < |target| :: Keeps(result[k], target[k])
      invariant Unshared(result) && AllApart(result, source)
    {
      var c := MergeAt(result, idx, source);
      result := result[idx := c];
    }
  }

  method MergeContainers(target: Containers, source: Containers) returns (result: Containers)
    requires Unshared(target) && AllApart(target, source)
    modifies Probes(target)
    ensures View(result) == MergedContainers(old(View(target)), old(View(source)))
    ensures View(source) == old(View(source))
    ensures Unshared(result)
    ensures forall p | p in Probes(result) :: p in Probes(target) || fresh(p)
  {
    if |source| == 0 {
      return source;
    }
    var list := target;
    if |target| != |source| {
      list := seq(|source|, _ => Container("", "", [], [], [], [], [], "", null, null, ""));
    }
    result := MergeEach(list, source);
    ProbesOf(result);
    ProbesOf(target);
  }

  class PodTemplate {
    var labels: Option<map<string, string>>
    var annotations: Option<map<string, string>>
    var initContainers: Containers
    var containers: Containers
    var volumes: seq<string>
    var hostNetwork: bool
    var dnsPolicy: string
    var nodeSelector: Option<map<string, string>>
    var restartPolicy: string
    var otherFields: string

    ghost predicate Valid()
      reads this
    {
      Unshared(initContainers) && Unshared(containers) && AllApart(initContainers, containers)
    }

    ghost function AllProbes(): set<Probe>
      reads this
    {
      Probes(initContainers) + Probes(containers)
    }

    ghost function Value(): PodValue
      reads this, AllProbes()
    {
      PodValue(labels, annotations, View(initContainers), View(containers), volumes, hostNetwork, dnsPolicy,
               nodeSelector, restartPolicy, otherFields)
    }
  }

  lemma ApartByProbes(cs: Containers, ds: Containers)
    ensures AllApart(cs, ds) <==> Probes(cs) !! Probes(ds)
  {
    ProbesOf(cs);
    ProbesOf(ds);
    hide Probes;
    if AllApart(cs, ds) {
      forall p | p in Probes(cs) ensures p !in Probes(ds) {
        var j :| 0 <= j < |cs| && (p == cs[j].livenessProbe || p == cs[j].readinessProbe);
        assert forall k | 0 <= k < |ds| :: Apart(cs[j], ds[k]);
      }
    }
  }

  method MergeBoth(ti: Containers, tc: Containers, si: Containers, sc: Containers)
    returns (ri: Containers, rc: Containers)
    requires Unshared(ti) && Unshared(tc) && AllApart(ti, tc)
    requires AllApart(ti, si) && AllApart(ti, sc) && AllApart(tc, si) && AllApart(tc, sc)
    modifies Probes(ti), Probes(tc)
    ensures View(ri) == MergedContainers(old(View(ti)), old(View(si)))
    ensures View(rc) == MergedContainers(old(View(tc)), old(View(sc)))
    ensures View(si) == old(View(si)) && View(sc) == old(View(sc))
    ensures Unshared(ri) && Unshared(rc) && AllApart(ri, rc)
  {
    hide View, MergedContainers, Unshared, AllApart, Probes;
    ApartByProbes(ti, tc);
    ApartByProbes(ti, si);
    ApartByProbes(ti, sc);
    ApartByProbes(tc, si);
    ApartByProbes(tc, sc);
    ProbesFrom(tc);
    ProbesFrom(si);
    ProbesFrom(sc);
    ri := MergeContainers(ti, si);
    ProbesFrom(ri);
    assert View(tc) == old(View(tc)) && View(sc) == old(View(sc));
    label L:
    rc := MergeContainers(tc, sc);
    assert View(ri) == old@L(View(ri)) && View(si) == old(View(si));
    ApartByProbes(ri, rc);
  }

  // Views depend on probes only, so they survive writes to the template.
  twostate lemma SameViews(lists: seq<Containers>)
    requires forall i, k | 0 <= i < |lists| && 0 <= k < |lists[i]| ::
      ViewContainer(lists[i][k]) == old(ViewContainer(lists[i][k]))
    ensures forall i | 0 <= i < |lists| :: View(lists[i]) == old(View(lists[i]))
  {
  }

  method CopyMaps(target: PodTemplate, source: PodTemplate, ghost lists: seq<Containers>)
    requires target != source
    modifies target`labels, target`annotations
    ensures target.labels == Some(Copied(old(target.labels), source.labels))
    ensures target.annotations ==
      if source.annotations.None? then old(target.annotations)
      else Some(Copied(old(target.annotations), source.annotations))
    ensures forall i | 0 <= i < |lists| :: View(lists[i]) == old(View(lists[i]))
  {
    hide View;
    if target.labels.None? {
      target.labels := Some(map[]);
    }
    if source.labels.Some? {
      target.labels := Some(target.labels.value + source.labels.value);
    }
    assert target.labels.value == Copied(old(target.labels), source.labels);
    if source.annotations.Some? {
      if target.annotations.None? {
        target.annotations := Some(map[]);
      }
      target.annotations := Some(target.annotations.value + source.annotations.value);
    }
    SameViews(lists);
  }

  method CopySettings(target: PodTemplate, source: PodTemplate, ghost lists: seq<Containers>)
    requires target != source
    modifies target`volumes, target`hostNetwork, target`dnsPolicy, target`nodeSelector, target`restartPolicy
    ensures target.volumes == source.volumes && target.hostNetwork == source.hostNetwork
    ensures target.dnsPolicy == if source.dnsPolicy != "" then source.dnsPolicy else old(target.dnsPolicy)
    ensures target.nodeSelector == if source.nodeSelector.Some? then source.nodeSelector else old(target.nodeSelector)
    ensures target.restartPolicy
        == if source.restartPolicy != "" then source.restartPolicy else old(target.restartPolicy)
    ensures forall i | 0 <= i < |lists| :: View(lists[i]) == old(View(lists[i]))
  {
    hide View;
    target.volumes := source.volumes;
    target.hostNetwork := source.hostNetwork;
    if source.dnsPolicy != "" {
      target.dnsPolicy := source.dnsPolicy;
    }
    if source.nodeSelector.Some? {
      target.nodeSelector := source.nodeSelector;
    }
    if source.restartPolicy != "" {
      target.restartPolicy := source.restartPolicy;
    }
    SameViews(lists);
  }

  method MergeLists(target: PodTemplate, source: PodTemplate)
    requires target != source && target.Valid()
    requires target.AllProbes() !! source.AllProbes()
    modifies target`initContainers, target`containers, target.AllProbes()
    ensures View(target.initContainers)
        == MergedContainers(old(View(target.initContainers)), old(View(source.initContainers)))
    ensures View(target.containers) == MergedContainers(old(View(target.containers)), old(View(source.containers)))
    ensures View(source.initContainers) == old(View(source.initContainers))
    ensures View(source.containers) == old(View(source.containers))
    ensures target.Valid()
  {
    hide View, MergedContainers, Unshared, AllApart, Probes;
    var ti, tc, si, sc := target.initContainers, target.containers, source.initContainers, source.containers;
    assert AllApart(ti, si) && AllApart(ti, sc) && AllApart(tc, si) && AllApart(tc, sc) by {
      ApartByProbes(ti, si);
      ApartByProbes(ti, sc);
      ApartByProbes(tc, si);
      ApartByProbes(tc, sc);
    }
    var ri, rc := MergeBoth(ti, tc, si, sc);
    label L:
    target.initContainers, target.containers := ri, rc;
    ghost var lists := [ri, rc, si, sc];
    SameViews@L(lists);
    assert View(lists[0]) == View(ri) && View(lists[1]) == View(rc);
    assert View(lists[2]) == View(si) && View(lists[3]) == View(sc);
  }

  // The source is never written, and the target becomes what merging computes.
  method MergePodTemplates(target: PodTemplate, source: PodTemplate)
    requires target != source && target.Valid()
    requires target.AllProbes() !! source.AllProbes()
    modifies target, target.AllProbes()
    ensures target.Value() == MergedPod(old(target.Value()), old(source.Value()))
    ensures source.Value() == old(source.Value())
    ensures target.Valid()
  {
    hide View, MergedContainers, Unshared, AllApart, Probes, Copied, ViewContainer;
    ghost var lists := [target.initContainers, target.containers, source.initContainers, source.containers];
    CopyMaps(target, source, lists);
    assert lists[0] == target.initContainers && lists[1] == target.containers;
    assert lists[2] == source.initContainers && lists[3] == source.containers;
    MergeLists(target, source);
    lists := [target.initContainers, target.containers, source.initContainers, source.containers];
    CopySettings(target, source, lists);
    assert lists[0] == target.initContainers && lists[1] == target.containers;
    assert lists[2] == source.initContainers && lists[3] == source.containers;
  }

  /* ---- Properties ---- */

  ghost predicate Includes(m: Option<map<string, string>>, source: Option<map<string, string>>) {
    source.Some? ==> m.Some? && forall key | key in source.value :: key in m.value && m.value[key] == source.value[key]
  }

  // The fields that are copied; of a probe, only the handler is.
  ghost predicate SameCopied(c: ContainerValue, src: ContainerValue) {
    && src == c.(livenessProbe := src.livenessProbe, readinessProbe := src.readinessProbe,
                 otherFields := src.otherFields)
    && SameHandler(c.livenessProbe, src.livenessProbe) && SameHandler(c.readinessProbe, src.readinessProbe)
  }

  ghost predicate SameHandler(p: Option<ProbeValue>, src: Option<ProbeValue>) {
    (p.Some? <==> src.Some?) && (p.Some? ==> p.value.handler == src.value.handler)
  }

  ghost predicate AllCopied(cs: seq<ContainerValue>, source: seq<ContainerValue>) {
    |cs| == |source| && forall k | 0 <= k < |cs| :: SameCopied(cs[k], source[k])
  }

  ghost predicate FromSource(pod: PodValue, source: PodValue) {
    && Includes(pod.labels, source.labels) && Includes(pod.annotations, source.annotations)
    && AllCopied(pod.initContainers, source.initContainers) && AllCopied(pod.containers, source.containers)
    && pod.volumes == source.volumes && pod.hostNetwork == source.hostNetwork
    && (source.dnsPolicy != "" ==> pod.dnsPolicy == source.dnsPolicy)
    && (source.nodeSelector.Some? ==> pod.nodeSelector == source.nodeSelector)
    && (source.restartPolicy != "" ==> pod.restartPolicy == source.restartPolicy)
  }

  // A probe, a container, a pod as the server may have completed it: copied
  // fields, the number of containers, absent probes and timings that are set
  // stay; everything else may change.
  ghost predicate TimingKept(before: int, after: int) {
    before != 0 ==> after == before
  }

  ghost predicate ProbeCompleted(p: Option<ProbeValue>, q: Option<ProbeValue>) {
    && SameHandler(p, q)
    && (p.Some? ==>
          && TimingKept(p.value.initialDelaySeconds, q.value.initialDelaySeconds)
          && TimingKept(p.value.timeoutSeconds, q.value.timeoutSeconds)
          && TimingKept(p.value.failureThreshold, q.value.failureThreshold))
  }

  ghost predicate ContainersCompleted(cs: seq<ContainerValue>, ds: seq<ContainerValue>) {
    && |cs| == |ds|
    && forall k | 0 <= k < |cs| ::
         && SameCopied(ds[k], cs[k])
         && ProbeCompleted(cs[k].livenessProbe, ds[k].livenessProbe)
         && ProbeCompleted(cs[k].readinessProbe, ds[k].readinessProbe)
  }

  ghost predicate Completed(pod: PodValue, after: PodValue) {
    && Includes(after.labels, pod.labels) && Includes(after.annotations, pod.annotations)
    && ContainersCompleted(pod.initContainers, after.initContainers)
    && ContainersCompleted(pod.containers, after.containers)
    && after.volumes == pod.volumes && after.hostNetwork == pod.hostNetwork
    && (pod.dnsPolicy != "" ==> after.dnsPolicy == pod.dnsPolicy)
    && (pod.nodeSelector.Some? ==> after.nodeSelector == pod.nodeSelector)
    && (pod.restartPolicy != "" ==> after.restartPolicy == pod.restartPolicy)
  }

  lemma MergedContainersFromSource(target: seq<ContainerValue>, source: seq<ContainerValue>)
    ensures AllCopied(MergedContainers(target, source), source)
  {
  }

  // Whatever was there before, the copied fields equal the source.
  lemma MergeCopies(target: PodValue, source: PodValue)
    ensures FromSource(MergedPod(target, source), source)
  {
    hide MergedContainers, AllCopied;
    MergedContainersFromSource(target.initContainers, source.initContainers);
    MergedContainersFromSource(target.containers, source.containers);
  }

  // A probe that is rendered has every timing set: to what the live object
  // says, or else to a second of delay, five of patience and twelve failures.
  lemma MergedTimings(target: Option<ProbeValue>, source: Option<ProbeValue>)
    ensures source.Some? ==>
      var merged := MergedProbe(target, source);
      && merged.Some? && ProbeTimed(merged.value)
      && (target.Some? ==>
            && ProbeCompleted(Some(target.value.(handler := source.value.handler)), merged)
            && merged.value.otherFields == target.value.otherFields)
      && (target.None? ==> merged.value == ProbeValue(source.value.handler, 1, 5, 12, ""))
  {
  }

  // A list of another length is built anew: nothing of the old one is left.
  lemma RebuiltContainers(target: seq<ContainerValue>, source: seq<ContainerValue>, k: nat)
    requires |target| != |source| && k < |source|
    ensures var c := MergedContainers(target, source)[k];
      && SameCopied(c, source[k]) && c.otherFields == ""
      && c.livenessProbe == MergedProbe(None, source[k].livenessProbe)
      && c.readinessProbe == MergedProbe(None, source[k].readinessProbe)
  {
  }

  ghost predicate ProbeTimed(p: ProbeValue) {
    p.initialDelaySeconds != 0 && p.timeoutSeconds != 0 && p.failureThreshold != 0
  }

  lemma MergedContainersSettle(target: seq<ContainerValue>, source: seq<ContainerValue>, after: seq<ContainerValue>)
    requires ContainersCompleted(MergedContainers(target, source), after)
    ensures MergedContainers(after, source) == after
  {
    forall k | 0 <= k < |source| ensures MergedContainer(after[k], source[k]) == after[k] {
      var merged := MergedContainers(target, source)[k];
      assert SameCopied(after[k], merged);
      ProbeSettles(if |target| == |source| then target[k].livenessProbe else None, source[k].livenessProbe,
                   after[k].livenessProbe);
      ProbeSettles(if |target| == |source| then target[k].readinessProbe else None, source[k].readinessProbe,
                   after[k].readinessProbe);
    }
  }

  lemma ProbeSettles(target: Option<ProbeValue>, source: Option<ProbeValue>, after: Option<ProbeValue>)
    requires ProbeCompleted(MergedProbe(target, source), after)
    ensures MergedProbe(after, source) == after
  {
  }

  // One write settles the object: however the server completes the merged
  // pod, merging again changes nothing.
  lemma MergeSettles(target: PodValue, source: PodValue, after: PodValue)
    requires Completed(MergedPod(target, source), after)
    ensures MergedPod(after, source) == after
  {
    hide MergedContainers, ContainersCompleted;
    MergedContainersSettle(target.initContainers, source.initContainers, after.initContainers);
    MergedContainersSettle(target.containers, source.containers, after.containers);
    assert Includes(after.labels, source.labels) && Includes(after.annotations, source.annotations);
    assert Copied(after.labels, source.labels) == after.labels.value;
    if source.annotations.Some? {
      assert Copied(after.annotations, source.annotations) == after.annotations.value;
    }
  }

  // In particular, merging is idempotent.
  lemma MergeIsIdempotent(target: PodValue, source: PodValue)
    ensures MergedPod(MergedPod(target, source), source) == MergedPod(target, source)
  {
    var merged := MergedPod(target, source);
    assert ContainersCompleted(merged.initContainers, merged.initContainers);
    assert ContainersCompleted(merged.containers, merged.containers);
    MergeSettles(target, source, merged);
  }

  /* ---- Replacing instead of merging ---- */

  // pkg/ironic/networking_deployment.go takes the template as it is rendered,
  // whatever the live one says.
  function ReplacedPod(target: PodValue, source: PodValue): PodValue {
    source
  }

  // That settles exactly when the server has completed nothing; and there is
  // always something for it to complete, unlike for MergeSettles.
  lemma ReplacingDoesNotSettle(target: PodValue, source: PodValue)
    ensures forall after | Completed(ReplacedPod(target, source), after) ::
      ReplacedPod(after, source) == after <==> after == source
    ensures exists after | Completed(ReplacedPod(target, source), after) :: ReplacedPod(after, source) != after
  {
    var after := source.(otherFields := source.otherFields + "defaulted");
    assert ContainersCompleted(source.initContainers, after.initContainers);
    assert ContainersCompleted(source.containers, after.containers);
    assert |after.otherFields| > |source.otherFields|;
    assert Completed(ReplacedPod(target, source), after) && ReplacedPod(after, source) != after;
  }
}
