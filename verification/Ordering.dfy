// The order of one upgrade: the schema job before the workload, the workload
// before the data job, and everything before the version counts as installed.
module Ordering {
  import opened Options
  import opened Versions
  import opened Cluster
  import opened Workloads
  import opened SwitchSecrets
  import opened Networking
  import opened Targets
  import opened Upgrades
  import opened Deploy
  import opened Controller
  import opened Preparation
  import opened Runs

  /* ---- One phase at a time ---- */

  // A phase has a job only for the way from the installed version to another
  // one, and only with a database; it is seen complete when it is.
  ghost predicate JobEvents(
    ironic: Ironic, phase: JobPhase, version: string, jobs: map<JobKey, Job>, events: seq<Event>)
  {
    var key := JobFrom(ironic.status.installed, phase, version);
    && (|| events == []
        || events == [JobCreated(key)]
        || (events == [JobSeenComplete(key)] && key in jobs && Complete(jobs[key])))
    && (events != [] ==> ironic.spec.database && version != ironic.status.installed)
  }

  // Jobs are never changed or deleted.
  ghost predicate JobsKept(s: Store, t: Store) {
    forall key | key in s.jobs :: key in t.jobs && t.jobs[key] == s.jobs[key]
  }

  // The one event that lets a required phase pass.
  ghost predicate JobDone(ironic: Ironic, phase: JobPhase, version: string, events: seq<Event>) {
    ironic.spec.database && version != ironic.status.installed ==>
      events == [JobSeenComplete(JobFrom(ironic.status.installed, phase, version))]
  }

  lemma JobStep(s: Store, phase: JobPhase, version: string, input: Input) returns (events: seq<Event>)
    requires s.ironic.Some?
    ensures var stage := EnsureUpgradeJob(s, phase, version, input);
      && stage.store == s.(jobs := stage.store.jobs, journal := s.journal + events)
      && JobEvents(s.ironic.value, phase, version, stage.store.jobs, events) && JobsKept(s, stage.store)
      && (stage.Passed? ==> JobDone(s.ironic.value, phase, version, events))
  {
    var key := UpgradeJob(s.ironic.value, phase, version);
    if key in s.jobs {
      JobDoneMeans(s.jobs[key].conditions, phase);
    }
    hide JobProgress;
    var stage := EnsureUpgradeJob(s, phase, version, input);
    events := stage.store.journal[|s.journal|..];
    assert stage.store.journal == s.journal + events;
  }

  lemma ServiceStep(s: Store, version: string, input: Input)
    requires s.ironic.Some?
    ensures var stage := EnsureService(s, version, input);
      var service := stage.store.service;
      && stage.store == s.(service := service)
      && (stage.Passed? ==>
            ServiceAsked(stage.store, version) && service.value.clusterIPs)
  {
  }

  lemma IngressStep(s: Store, version: string, input: Input)
    requires s.ironic.Some?
    ensures var stage := EnsureIngress(s, version, input);
      && stage.store == s.(ingress := stage.store.ingress)
      && (stage.Passed? ==> IngressAsked(stage.store, version))
  {
  }

  lemma MonitorStep(s: Store, input: Input)
    requires s.ironic.Some?
    ensures var stage := EnsureMonitor(s, input);
      && stage.store == s.(monitor := stage.store.monitor)
      && (stage.Passed? ==> MonitorAsked(stage.store))
  {
  }

  lemma WorkloadStep(s: Store, version: string, input: Input) returns (events: seq<Event>)
    requires s.ironic.Some?
    ensures var stage := RemoveOtherWorkload(s, input);
      stage.Passed? ==>
        var (t, progress) := EnsureWorkload(stage.store, version, input);
        && t == s.(deployment := t.deployment, daemonSet := t.daemonSet, journal := s.journal + events)
        && (events == [] || events == [WorkloadWritten(version)])
        && (!progress.Transient? && !progress.Fatal? ==> WorkloadAsked(t, version))
        && (progress.Ready? ==> WorkloadUp(t))
  {
    hide DeploymentProgress, DaemonSetProgress;
    var stage := RemoveOtherWorkload(s, input);
    OtherRemoved(s, input);
    hide RemoveOtherWorkload, EnsureWorkload, TemplateAsked, DeploymentUp, DaemonSetUp;
    if s.ironic.value.spec.highAvailability {
      DaemonSetStep(stage.store, version, input);
    } else {
      DeploymentStep(stage.store, version, input);
    }
    var (t, _) := EnsureWorkload(stage.store, version, input);
    events := t.journal[|s.journal|..];
    assert stage.Passed? ==> t.journal == s.journal + events;
  }

  lemma OtherRemoved(s: Store, input: Input)
    requires s.ironic.Some?
    ensures var stage := RemoveOtherWorkload(s, input);
      stage.Passed? ==>
        stage.store == if s.ironic.value.spec.highAvailability then s.(deployment := None) else s.(daemonSet := None)
  {
  }

  lemma DaemonSetStep(s: Store, version: string, input: Input)
    requires s.ironic.Some? && s.ironic.value.spec.highAvailability
    ensures var (t, progress) := EnsureWorkload(s, version, input);
      && t == s.(daemonSet := t.daemonSet, journal := t.journal)
      && (t.journal == s.journal || t.journal == s.journal + [WorkloadWritten(version)])
      && (!progress.Transient? && !progress.Fatal? ==>
            t.daemonSet.Some? && TemplateAsked(s, version, t.daemonSet.value.template))
      && (progress.Ready? ==> t.daemonSet.Some? && DaemonSetUp(t.daemonSet.value))
  {
    if s.daemonSet.Some? {
      DaemonSetProgressMeans(s.daemonSet.value);
    }
    hide DaemonSetUp;
    hide DaemonSetProgress, DeploymentProgress;
  }

  lemma DeploymentStep(s: Store, version: string, input: Input)
    requires s.ironic.Some? && !s.ironic.value.spec.highAvailability
    ensures var (t, progress) := EnsureWorkload(s, version, input);
      && t == s.(deployment := t.deployment, journal := t.journal)
      && (t.journal == s.journal || t.journal == s.journal + [WorkloadWritten(version)])
      && (!progress.Transient? && !progress.Fatal? ==>
            t.deployment.Some? && TemplateAsked(s, version, t.deployment.value.template))
      && (progress.Ready? ==> t.deployment.Some? && DeploymentUp(t.deployment.value))
  {
    if s.deployment.Some? {
      DeploymentProgressMeans(s.deployment.value);
    }
    hide DeploymentUp;
    hide DaemonSetProgress, DeploymentProgress;
  }

  // Everything reachable from outside that a finished deployment consists of.
  ghost predicate AccessInPlace(s: Store, version: string)
    requires s.ironic.Some?
  {
    && ServiceAsked(s, version) && s.service.value.clusterIPs
    && IngressAsked(s, version) && MonitorAsked(s)
  }

  lemma AccessStep(s: Store, version: string, input: Input) returns (events: seq<Event>)
    requires s.ironic.Some?
    ensures var stage := EnsureAccess(s, version, input);
      var t := stage.store;
      && t == s.(service := t.service, ingress := t.ingress, monitor := t.monitor, jobs := t.jobs,
                 journal := s.journal + events)
      && JobEvents(s.ironic.value, Post, version, t.jobs, events) && JobsKept(s, t)
      && (stage.Passed? ==> JobDone(s.ironic.value, Post, version, events) && AccessInPlace(t, version))
  {
    hide EnsureService, EnsureIngress, EnsureUpgradeJob, EnsureMonitor, ServiceAsked, IngressAsked, MonitorAsked;
    hide Complete;
    events := [];
    ServiceStep(s, version, input);
    var service := EnsureService(s, version, input);
    if service.Passed? {
      IngressStep(service.store, version, input);
      var ingress := EnsureIngress(service.store, version, input);
      if ingress.Passed? {
        events := JobStep(ingress.store, Post, version, input);
        var job := EnsureUpgradeJob(ingress.store, Post, version, input);
        if job.Passed? {
          MonitorStep(job.store, input);
          AccessFrame(service.store, ingress.store, EnsureMonitor(job.store, input).store, version);
        }
      }
    }
  }

  lemma AccessFrame(s: Store, t: Store, u: Store, version: string)
    requires s.ironic.Some? && t.ironic == s.ironic && u.ironic == s.ironic
    requires u.service == s.service && u.ingress == t.ingress
    ensures ServiceAsked(u, version) == ServiceAsked(s, version)
    ensures ServiceAsked(s, version) ==> s.service.Some?
    ensures IngressAsked(u, version) == IngressAsked(t, version)
  {
  }

  /* ---- The whole deployment ---- */

  // What EnsureIronic adds to the journal: at most one event of the schema
  // job, one write of the workload and one event of the data job, in this
  // order, each of them only when what comes before it is done.
  lemma DeployOrder(s: Store, version: string, input: Input)
    returns (pre: seq<Event>, work: seq<Event>, post: seq<Event>)
    requires s.ironic.Some?
    ensures var (t, progress) := EnsureIronic(s, version, input);
      var ironic := s.ironic.value;
      && t.ironic == s.ironic
      && t.networkDeployment == s.networkDeployment && t.networkService == s.networkService && t.secrets == s.secrets
      && t.journal == s.journal + pre + work + post
      && JobEvents(ironic, Pre, version, t.jobs, pre)
      && (work == [] || work == [WorkloadWritten(version)])
      && JobEvents(ironic, Post, version, t.jobs, post)
      && (work != [] || post != [] ==> JobDone(ironic, Pre, version, pre))
      && (post != [] ==> WorkloadAsked(t, version))
      && (progress.Ready? ==>
            && WorkloadAsked(t, version) && WorkloadUp(t) && AccessInPlace(t, version)
            && JobDone(ironic, Pre, version, pre) && JobDone(ironic, Post, version, post))
  {
    hide EnsureUpgradeJob, EnsureWorkload, EnsureAccess, RemoveOtherWorkload, WorkloadAsked, WorkloadUp, AccessInPlace;
    pre, work, post := [], [], [];
    if input.valid(s.ironic.value.spec) {
      pre := JobStep(s, Pre, version, input);
      var job := EnsureUpgradeJob(s, Pre, version, input);
      if job.Passed? {
        RemoveOtherFrame(job.store, input);
        var alone := RemoveOtherWorkload(job.store, input);
        if alone.Passed? {
          work := WorkloadStep(job.store, version, input);
          var (w, progress) := EnsureWorkload(alone.store, version, input);
          if !progress.Fatal? && !progress.Transient? {
            post := AccessStep(w, version, input);
            WorkloadFrame(w, EnsureAccess(w, version, input).store, version);
          }
        }
      }
    }
  }

  lemma RemoveOtherFrame(s: Store, input: Input)
    requires s.ironic.Some?
    ensures var t := RemoveOtherWorkload(s, input).store;
      t == s.(deployment := t.deployment, daemonSet := t.daemonSet)
  {
  }

  lemma WorkloadFrame(s: Store, t: Store, version: string)
    requires s.ironic.Some? && t.ironic == s.ironic && t.secrets == s.secrets
    requires t.deployment == s.deployment && t.daemonSet == s.daemonSet
    ensures WorkloadAsked(t, version) == WorkloadAsked(s, version) && WorkloadUp(t) == WorkloadUp(s)
  {
    hide DeploymentUp, DaemonSetUp;
  }

  /* ---- One reconcile ---- */

  ghost predicate SeenBefore(news: seq<Event>, i: nat, job: JobKey)
    requires i <= |news|
  {
    exists k | 0 <= k < i :: news[k] == JobSeenComplete(job)
  }

  // The order that one reconcile of this object keeps, where t is its result
  // and news is what it did: the workload gets a version only if that version
  // is installed, or its schema job was seen complete earlier in the same
  // reconcile; a data job is created only while the workload carries its
  // version; and a version counts as installed only after both jobs were seen
  // complete in this reconcile, with everything else in place.
  ghost predicate StepOrdered(ironic: Ironic, t: Store, news: seq<Event>) {
    forall i | 0 <= i < |news| :: EventInOrder(ironic, t, news, i)
  }

  ghost predicate EventInOrder(ironic: Ironic, t: Store, news: seq<Event>, i: nat)
    requires i < |news|
  {
    match news[i]
    case WorkloadWritten(v) =>
      (v != "" && v == ironic.status.installed) || SeenBefore(news, i, JobFrom(ironic.status.installed, Pre, v))
    case JobCreated(job) =>
      && job == JobFrom(ironic.status.installed, job.phase, job.to) && job.to != ironic.status.installed
      && (job.phase.Post? ==> t.ironic.Some? && WorkloadAsked(t, job.to))
    case JobSeenComplete(job) =>
      && job == JobFrom(ironic.status.installed, job.phase, job.to) && job.to != ironic.status.installed
      && job in t.jobs && Complete(t.jobs[job])
    case StatusWritten(before, after) =>
      after.installed != before.installed ==>
        && before.installed == ironic.status.installed
        && SeenBefore(news, i, JobFrom(ironic.status.installed, Pre, after.installed))
        && SeenBefore(news, i, JobFrom(ironic.status.installed, Post, after.installed))
        && t.ironic.Some?
        && WorkloadAsked(t, after.installed) && WorkloadUp(t) && AccessInPlace(t, after.installed)
  }

  // A change of the installed version has both its jobs in the news.
  ghost predicate InstalledSeen(ironic: Ironic, t: Store, news: seq<Event>) {
    && t.ironic.Some?
    && (var version := t.ironic.value.status.installed;
        version != ironic.status.installed ==>
          && SeenBefore(news, |news|, JobFrom(ironic.status.installed, Pre, version))
          && SeenBefore(news, |news|, JobFrom(ironic.status.installed, Post, version)))
  }

  lemma DeployedInOrder(s: Store, version: string, input: Input) returns (news: seq<Event>)
    requires s.ironic.Some? && s.ironic.value.spec.database && version != ""
    ensures var (t, progress) := EnsureIronic(s, version, input);
      && t.ironic == s.ironic
      && t.journal == s.journal + news
      && StepOrdered(s.ironic.value, t, news)
      && (forall e | e in news :: !e.StatusWritten?)
      && (progress.Ready? ==>
            && WorkloadAsked(t, version) && WorkloadUp(t) && AccessInPlace(t, version)
            && (version != s.ironic.value.status.installed ==>
                  && SeenBefore(news, |news|, JobFrom(s.ironic.value.status.installed, Pre, version))
                  && SeenBefore(news, |news|, JobFrom(s.ironic.value.status.installed, Post, version))))
  {
    hide EnsureIronic;
    var pre, work, post := DeployOrder(s, version, input);
    news := pre + work + post;
    assert (s.journal + pre) + work + post == s.journal + news;
    if work != [] {
      assert version != s.ironic.value.status.installed ==> news[0] == pre[0];
    }
    if post != [] {
      assert news[|news| - 1] == post[0];
    }
    if pre != [] {
      assert news[0] == pre[0];
    }
  }

  // Appending the final status write keeps the order.
  lemma OutcomeInOrder(s: Store, progress: Progress, version: string, input: Input, base: seq<Event>, news: seq<Event>)
    returns (all: seq<Event>)
    requires s.ironic.Some? && s.journal == base + news
    requires StepOrdered(s.ironic.value, s, news)
    requires progress.Ready? ==>
      && WorkloadAsked(s, version) && WorkloadUp(s) && AccessInPlace(s, version)
      && (version != s.ironic.value.status.installed ==>
            && SeenBefore(news, |news|, JobFrom(s.ironic.value.status.installed, Pre, version))
            && SeenBefore(news, |news|, JobFrom(s.ironic.value.status.installed, Post, version)))
    ensures var t := UpdateIronicStatus(s, progress, version, input).store;
      t.journal == base + all && StepOrdered(s.ironic.value, t, all) && InstalledSeen(s.ironic.value, t, all)
  {
    all := news;
    var t := UpdateIronicStatus(s, progress, version, input).store;
    if t != s {
      var last := StatusWritten(s.ironic.value.status, StatusAfter(s.ironic.value, progress, version));
      all := news + [last];
      assert t.journal == base + all;
      forall i, job | 0 <= i <= |news| && SeenBefore(news, i, job) ensures SeenBefore(all, i, job) {
        var k :| 0 <= k < i && news[k] == JobSeenComplete(job);
        assert all[k] == JobSeenComplete(job);
      }
      forall i | 0 <= i < |all| ensures EventInOrder(s.ironic.value, t, all, i) {
        if i < |news| {
          assert EventInOrder(s.ironic.value, s, news, i) && all[i] == news[i];
        }
      }
    }
  }

  lemma InstalledInOrder(s: Store, v: ParsedVersion, input: Input) returns (news: seq<Event>)
    requires s.ironic.Some? && s.ironic.value.spec.database
    ensures var t := Install(s, v, input).store;
      t.journal == s.journal + news && StepOrdered(s.ironic.value, t, news) && InstalledSeen(s.ironic.value, t, news)
  {
    hide EnsureNetworkingSwitchSecrets, EnsureIronicNetworking, EnsureIronic, UpdateIronicStatus;
    hide WorkloadAsked, WorkloadUp, AccessInPlace, SeenBefore;
    var ironic := s.ironic.value;
    var (secrets, switches) := EnsureNetworkingSwitchSecrets(s.secrets, ironic, input);
    var t := s.(secrets := secrets);
    news := [];
    if switches.Problem? || VersionTooOldFor(ironic.spec, v) {
      var u := Install(s, v, input).store;
      news := u.journal[|s.journal|..];
    } else {
      NetworkingIsQuiet(t, switches, v.ToString(), input);
      var stage := EnsureIronicNetworking(t, switches, v.ToString(), input);
      if stage.Passed? {
        assert v.ToString() != "";
        news := DeployedInOrder(stage.store, v.ToString(), input);
        var (w, progress) := EnsureIronic(stage.store, v.ToString(), input);
        if !progress.Transient? {
          news := OutcomeInOrder(w, progress, v.ToString(), input, s.journal, news);
        }
      }
    }
  }

  lemma NetworkingIsQuiet(s: Store, switches: Switches, version: string, input: Input)
    requires s.ironic.Some?
    ensures EnsureIronicNetworking(s, switches, version, input).store.journal == s.journal
  {
  }

  // Every reconcile of an object with a database keeps the order.
  lemma ReconciledInOrder(s: Store, input: Input) returns (news: seq<Event>)
    requires s.ironic.Some? && s.ironic.value.spec.database
    ensures var t := Reconcile(s, input).store;
      t.journal == s.journal + news && StepOrdered(s.ironic.value, t, news) && InstalledSeen(s.ironic.value, t, news)
  {
    hide CleanUp, Prepare, Install, EffectiveVersion, Complain;
    news := [];
    if s.ironic.value.deleting {
      CleanUpIsQuiet(s, input);
    } else if !input.faults(GetIronic).Failed() && s.ironic.value.finalizer {
      var v := EffectiveVersion(s.ironic.value.spec, input.defaultVersion);
      if v.None? {
        ComplainIsSilent(s, BadVersion, input);
        news := Complain(s, BadVersion, input).journal[|s.journal|..];
      } else {
        news := PreparedAndInstalledInOrder(s, v.value, input);
      }
    }
  }

  lemma PreparedAndInstalledInOrder(s: Store, v: ParsedVersion, input: Input) returns (news: seq<Event>)
    requires s.ironic.Some? && s.ironic.value.spec.database
    ensures var u := Prepare(s, v, input);
      var t := if u.Go? then Install(u.store, v, input).store else u.store;
      t.journal == s.journal + news && StepOrdered(s.ironic.value, t, news) && InstalledSeen(s.ironic.value, t, news)
  {
    hide Prepare, Install, StepOrdered, InstalledSeen, QuietEvent;
    PreparedQuietly(s, v, input);
    var u := Prepare(s, v, input);
    var quiet := QuietNews(s, u.store);
    news := quiet;
    if u.Go? {
      var installed := InstalledInOrder(u.store, v, input);
      QuietFirst(s.ironic.value, u.store.ironic.value, Install(u.store, v, input).store, quiet, installed);
      assert s.journal + (quiet + installed) == s.journal + quiet + installed;
      news := quiet + installed;
    } else {
      QuietOnly(s.ironic.value, u.store, quiet);
    }
  }

  lemma QuietNews(s: Store, t: Store) returns (news: seq<Event>)
    requires s.ironic.Some? && Quiet(s, t)
    ensures t.journal == s.journal + news
    ensures forall e | e in news :: QuietEvent(e)
  {
    news := t.journal[|s.journal|..];
  }

  lemma QuietOnly(before: Ironic, t: Store, quiet: seq<Event>)
    requires forall e | e in quiet :: QuietEvent(e)
    requires t.ironic.Some? && t.ironic.value.status.installed == before.status.installed
    ensures StepOrdered(before, t, quiet) && InstalledSeen(before, t, quiet)
  {
    forall i | 0 <= i < |quiet| ensures EventInOrder(before, t, quiet, i) {
      assert quiet[i] in quiet;
    }
  }

  lemma QuietFirst(before: Ironic, after: Ironic, t: Store, quiet: seq<Event>, news: seq<Event>)
    requires forall e | e in quiet :: QuietEvent(e)
    requires before.status.installed == after.status.installed
    requires StepOrdered(after, t, news) && InstalledSeen(after, t, news)
    ensures StepOrdered(before, t, quiet + news) && InstalledSeen(before, t, quiet + news)
  {
    var all := quiet + news;
    forall n, job | 0 <= n <= |news| && SeenBefore(news, n, job) ensures SeenBefore(all, |quiet| + n, job) {
      var k :| 0 <= k < n && news[k] == JobSeenComplete(job);
      assert all[|quiet| + k] == JobSeenComplete(job);
    }
    forall i | 0 <= i < |all| ensures EventInOrder(before, t, all, i) {
      if i < |quiet| {
        assert all[i] in quiet;
      } else {
        var n := i - |quiet|;
        assert EventInOrder(after, t, news, n) && all[i] == news[n] && i == |quiet| + n;
      }
    }
  }

  /* ---- Runs ---- */

  // Some schema job, or data job, for this version was seen complete among
  // the first n events.
  ghost predicate JobSeen(journal: seq<Event>, n: nat, phase: JobPhase, version: string)
    requires n <= |journal|
  {
    exists k | 0 <= k < n ::
      journal[k].JobSeenComplete? && journal[k].job.phase == phase && journal[k].job.to == version
  }

  ghost predicate Migrated(s: Store) {
    && (forall i | 0 <= i < |s.journal| && s.journal[i].WorkloadWritten? ::
          JobSeen(s.journal, i, Pre, s.journal[i].version))
    && (s.ironic.Some? && s.ironic.value.status.installed != "" ==>
          && JobSeen(s.journal, |s.journal|, Pre, s.ironic.value.status.installed)
          && JobSeen(s.journal, |s.journal|, Post, s.ironic.value.status.installed))
  }

  lemma JobSeenLater(journal: seq<Event>, news: seq<Event>, n: nat, phase: JobPhase, version: string)
    requires n <= |journal| && JobSeen(journal, n, phase, version)
    ensures forall m | n <= m <= |journal| + |news| :: JobSeen(journal + news, m, phase, version)
  {
    var k :| 0 <= k < n && journal[k].JobSeenComplete? && journal[k].job.phase == phase && journal[k].job.to == version;
    assert (journal + news)[k] == journal[k];
  }

  lemma SeenIsJobSeen(journal: seq<Event>, news: seq<Event>, n: nat, job: JobKey)
    requires n <= |news| && SeenBefore(news, n, job)
    ensures JobSeen(journal + news, |journal| + n, job.phase, job.to)
  {
    var k :| 0 <= k < n && news[k] == JobSeenComplete(job);
    assert (journal + news)[|journal| + k] == news[k];
  }

  lemma ReconcileKeepsMigrated(s: Store, input: Input)
    requires s.ironic.Some? && s.ironic.value.spec.database && Migrated(s)
    ensures Migrated(Reconcile(s, input).store)
  {
    hide Reconcile, EffectiveVersion;
    var t := Reconcile(s, input).store;
    var ironic := s.ironic.value;
    var news := ReconciledInOrder(s, input);
    forall i | 0 <= i < |t.journal| && t.journal[i].WorkloadWritten?
      ensures JobSeen(t.journal, i, Pre, t.journal[i].version)
    {
      var version := t.journal[i].version;
      if i < |s.journal| {
        assert s.journal[i] == t.journal[i];
        JobSeenLater(s.journal, news, i, Pre, version);
      } else {
        var n := i - |s.journal|;
        assert news[n] == t.journal[i] && EventInOrder(ironic, t, news, n);
        if version != "" && version == ironic.status.installed {
          JobSeenLater(s.journal, news, |s.journal|, Pre, version);
        } else {
          SeenIsJobSeen(s.journal, news, n, JobFrom(ironic.status.installed, Pre, version));
        }
      }
    }
    forall phase: JobPhase | t.ironic.value.status.installed != ""
      ensures JobSeen(t.journal, |t.journal|, phase, t.ironic.value.status.installed)
    {
      var version := t.ironic.value.status.installed;
      if version == ironic.status.installed {
        JobSeenLater(s.journal, news, |s.journal|, phase, version);
      } else {
        match phase
        case Pre => SeenIsJobSeen(s.journal, news, |news|, JobFrom(ironic.status.installed, Pre, version));
        case Post => SeenIsJobSeen(s.journal, news, |news|, JobFrom(ironic.status.installed, Post, version));
      }
    }
  }

  // With an external database throughout, and whichever calls fail: no
  // workload has ever been given a version before its schema job was seen
  // complete, and both jobs of the installed version have been seen complete.
  lemma {:induction false} MigratedThroughout(states: seq<Store>, moves: seq<Move>, n: nat)
    requires Run(states, moves) && DatabaseThroughout(states) && n <= |moves|
    ensures Migrated(states[n])
  {
    hide Reconcile;
    if n > 0 {
      MigratedThroughout(states, moves, n - 1);
      assert Next(states[n - 1], moves[n - 1], states[n]);
      if moves[n - 1].Reconciled? {
        if states[n - 1].ironic.Some? {
          ReconcileKeepsMigrated(states[n - 1], moves[n - 1].input);
        } else {
          NothingToReconcile(states[n - 1], moves[n - 1].input);
        }
      }
    }
  }

  lemma NothingToReconcile(s: Store, input: Input)
    requires s.ironic.None?
    ensures Reconcile(s, input).store == s
  {
  }

  // Each change of the installed version, from u to v, came after both jobs
  // that lead from u to v.
  ghost predicate ChangesMigrated(journal: seq<Event>) {
    forall i | 0 <= i < |journal| && journal[i].StatusWritten? :: ChangeMigrated(journal, i)
  }

  ghost predicate ChangeMigrated(journal: seq<Event>, i: nat)
    requires i < |journal| && journal[i].StatusWritten?
  {
    var u, v := journal[i].before.installed, journal[i].after.installed;
    u != v ==> SeenBefore(journal, i, JobFrom(u, Pre, v)) && SeenBefore(journal, i, JobFrom(u, Post, v))
  }

  lemma SeenLater(journal: seq<Event>, news: seq<Event>, n: nat, job: JobKey)
    ensures n <= |journal| && SeenBefore(journal, n, job) ==> SeenBefore(journal + news, n, job)
    ensures n <= |news| && SeenBefore(news, n, job) ==> SeenBefore(journal + news, |journal| + n, job)
  {
    var all := journal + news;
    if n <= |journal| && SeenBefore(journal, n, job) {
      var k :| 0 <= k < n && journal[k] == JobSeenComplete(job);
      assert all[k] == JobSeenComplete(job);
    }
    if n <= |news| && SeenBefore(news, n, job) {
      var k :| 0 <= k < n && news[k] == JobSeenComplete(job);
      assert all[|journal| + k] == JobSeenComplete(job);
    }
  }

  lemma ReconcileMigratesChanges(s: Store, input: Input)
    requires s.ironic.Some? && s.ironic.value.spec.database && ChangesMigrated(s.journal)
    ensures ChangesMigrated(Reconcile(s, input).store.journal)
  {
    hide Reconcile, SeenBefore;
    var t := Reconcile(s, input).store;
    var news := ReconciledInOrder(s, input);
    forall i | 0 <= i < |t.journal| && t.journal[i].StatusWritten? ensures ChangeMigrated(t.journal, i) {
      var u, v := t.journal[i].before.installed, t.journal[i].after.installed;
      if i < |s.journal| {
        assert t.journal[i] == s.journal[i] && ChangeMigrated(s.journal, i);
        SeenLater(s.journal, news, i, JobFrom(u, Pre, v));
        SeenLater(s.journal, news, i, JobFrom(u, Post, v));
      } else {
        var n := i - |s.journal|;
        assert t.journal[i] == news[n] && EventInOrder(s.ironic.value, t, news, n);
        SeenLater(s.journal, news, n, JobFrom(u, Pre, v));
        SeenLater(s.journal, news, n, JobFrom(u, Post, v));
      }
    }
  }

  // With an external database throughout: whenever the installed version
  // changed from u to v, the schema job and the data job that lead from u to v
  // had been seen complete, not those of some other upgrade to v.
  lemma {:induction false} ChangesMigratedThroughout(states: seq<Store>, moves: seq<Move>, n: nat)
    requires Run(states, moves) && DatabaseThroughout(states) && n <= |moves|
    ensures ChangesMigrated(states[n].journal)
  {
    hide Reconcile;
    if n > 0 {
      ChangesMigratedThroughout(states, moves, n - 1);
      assert Next(states[n - 1], moves[n - 1], states[n]);
      if moves[n - 1].Reconciled? {
        if states[n - 1].ironic.Some? {
          ReconcileMigratesChanges(states[n - 1], moves[n - 1].input);
        } else {
          NothingToReconcile(states[n - 1], moves[n - 1].input);
        }
      }
    }
  }

  ghost predicate SeenBetween(journal: seq<Event>, m: nat, n: nat, job: JobKey)
    requires n <= |journal|
  {
    exists j | m <= j < n :: journal[j] == JobSeenComplete(job)
  }

  // And whenever the workload was given v while u was installed, the schema
  // job that leads from u to v had been seen complete by that very reconcile.
  lemma WorkloadsMigrated(states: seq<Store>, moves: seq<Move>, n: nat, k: nat)
    requires Run(states, moves) && DatabaseThroughout(states) && n < |moves|
    requires |states[n].journal| <= k < |states[n + 1].journal| && states[n + 1].journal[k].WorkloadWritten?
    ensures states[n].ironic.Some?
    ensures var u, v := states[n].ironic.value.status.installed, states[n + 1].journal[k].version;
      u == v || SeenBetween(states[n + 1].journal, |states[n].journal|, k, JobFrom(u, Pre, v))
  {
    hide Reconcile;
    var s, t := states[n], states[n + 1];
    assert Next(s, moves[n], t);
    assert moves[n].Reconciled?;
    if s.ironic.None? {
      NothingToReconcile(s, moves[n].input);
    }
    var news := ReconciledInOrder(s, moves[n].input);
    var i := k - |s.journal|;
    assert t.journal[k] == news[i] && EventInOrder(s.ironic.value, t, news, i);
    var u, v := s.ironic.value.status.installed, news[i].version;
    if u != v {
      var j :| 0 <= j < i && news[j] == JobSeenComplete(JobFrom(u, Pre, v));
      assert t.journal[|s.journal| + j] == news[j];
    }
  }

  // Upgrades that differ in phase, origin or target have different jobs.
  lemma UpgradesHaveTheirOwnJobs(a: Ironic, b: Ironic, p: JobPhase, q: JobPhase, v: string, w: string)
    requires a.status.installed == "" || ParseVersion(a.status.installed).Some?
    requires b.status.installed == "" || ParseVersion(b.status.installed).Some?
    ensures UpgradeJob(a, p, v) == UpgradeJob(b, q, w) <==> p == q && a.status.installed == b.status.installed && v == w
    ensures UpgradeJob(a, p, v) == JobFrom(a.status.installed, p, v)
  {
    NoneIsNoVersion();
  }

  lemma NoneIsNoVersion()
    ensures ParseVersion("none").None?
  {
    assert '.' !in "none";
    assert "none" != LATEST;
  }
}
