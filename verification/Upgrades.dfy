// pkg/ironic/upgrades.go: the database jobs that run before and after the
// workload moves to another version.
module Upgrades {
  import opened Options
  import opened Cluster
  import opened Workloads

  predicate UpgradeJobRequired(ironic: Ironic, version: string) {
    ironic.spec.database && version != ironic.status.installed
  }

  // The job for one phase of the upgrade to a version.
  function UpgradeJob(ironic: Ironic, phase: JobPhase, version: string): JobKey {
    JobKey(phase, if ironic.status.installed == "" then "none" else ironic.status.installed, version)
  }

  function LiveJob(jobs: map<JobKey, Job>, key: JobKey): Option<Job> {
    if key in jobs then Some(jobs[key]) else None
  }

  // Creating the job, or finding it as it should be. The server refuses to
  // change the template of an existing job.
  function WrittenJob(live: Option<Job>, template: JobTemplate, get: Fate, write: Fate): (r: (Option<Job>, Written))
    ensures r.1.Same? ==> r.0 == live && live.Some? && live.value.template == template
    ensures r.0 == live || (live.None? && r.0 == Some(Job(template, [])))
  {
    if live.Some? && live.value.template != template then (live, Errored)
    else CreateOrUpdate(live, Job(template, if live.Some? then live.value.conditions else []), get, write)
  }

  function EnsureUpgradeJob(s: Store, phase: JobPhase, version: string, input: Input): (r: Stage)
    requires s.ironic.Some?
    ensures r.store.ironic == s.ironic
  {
    var ironic := s.ironic.value;
    if !UpgradeJobRequired(ironic, version) then Passed(s)
    else
      var key := UpgradeJob(ironic, phase, version);
      var live := LiveJob(s.jobs, key);
      var job := WrittenJob(live, JobTemplate(version, ironic.spec.jobSettings),
                            input.faults(GetJob(phase)), input.faults(WriteJob(phase)));
      if job.1.Same? then
        var progress := JobProgress(live.value.conditions, phase);
        if progress.Ready? then Passed(s.(journal := s.journal + [JobSeenComplete(key)])) else Held(s, progress)
      else
        var t := if job.0 == live then s
                 else s.(jobs := s.jobs[key := job.0.value], journal := s.journal + [JobCreated(key)]);
        Held(t, if job.1.Errored? then Transient else Updating)
  }

  method EnsureJob(api: Api, ironic: Ironic, phase: JobPhase, version: string, input: Input)
    returns (progress: Progress)
    requires api.ironic == Some(ironic)
    modifies api`jobs, api`journal
    ensures var stage := EnsureUpgradeJob(old(api.Snapshot()), phase, version, input);
      && api.Snapshot() == stage.store
      && (progress.Ready? <==> stage.Passed?)
      && (stage.Held? ==> progress == stage.progress)
  {
    if !UpgradeJobRequired(ironic, version) {
      return Ready;
    }
    var key := UpgradeJob(ironic, phase, version);
    var live := LiveJob(api.jobs, key);
    var job := WrittenJob(live, JobTemplate(version, ironic.spec.jobSettings),
                          input.faults(GetJob(phase)), input.faults(WriteJob(phase)));
    if job.0 != live {
      api.jobs := api.jobs[key := job.0.value];
      api.journal := api.journal + [JobCreated(key)];
    }
    if job.1.Wrote? {
      return Updating;
    }
    if job.1.Errored? {
      return Transient;
    }
    progress := GetJobStatus(job.0.value, phase);
    if progress.Ready? {
      api.journal := api.journal + [JobSeenComplete(key)];
    }
  }

  // A job of the same name from an earlier attempt with other settings holds
  // the upgrade up, whatever the calls, until somebody deletes it.
  lemma StaleJobBlocks(s: Store, phase: JobPhase, version: string, input: Input)
    requires s.ironic.Some? && UpgradeJobRequired(s.ironic.value, version)
    ensures var key := UpgradeJob(s.ironic.value, phase, version);
      key in s.jobs && s.jobs[key].template != JobTemplate(version, s.ironic.value.spec.jobSettings) ==>
        EnsureUpgradeJob(s, phase, version, input) == Held(s, Transient)
  {
  }
}
