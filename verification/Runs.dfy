// Runs of the whole system: reconciles, with whatever calls fail, alternating
// with what the user and the cluster do in between.
module Runs {
  import opened Options
  import opened Cluster
  import opened Controller

  /* ---- The environment ---- */

  // The user creates, edits and deletes the Ironic object, but leaves status
  // and finalizers alone; an object that is held by no finalizer may go.
  ghost predicate IronicEdited(before: Option<Ironic>, after: Option<Ironic>) {
    match (before, after)
    case (None, None) => true
    case (None, Some(i)) => !i.finalizer && !i.deleting && i.status == EMPTY_STATUS
    case (Some(i), None) => !i.finalizer
    case (Some(i), Some(j)) =>
      && j.name == i.name && j.uid == i.uid && j.status == i.status && j.finalizer == i.finalizer
      && (i.deleting ==> j.deleting) && i.generation <= j.generation
  }

  // The cluster reports progress on the workloads and the jobs, and any of
  // the objects may be deleted, but nobody else writes them. Linked secrets
  // and config maps change at will.
  ghost predicate Environment(s: Store, t: Store) {
    && IronicEdited(s.ironic, t.ironic)
    && (forall key | key in t.jobs :: key in s.jobs && t.jobs[key].template == s.jobs[key].template)
    && (t.deployment.Some? ==> s.deployment.Some? && t.deployment.value.template == s.deployment.value.template
                               && t.deployment.value.generation == s.deployment.value.generation)
    && (t.daemonSet.Some? ==> s.daemonSet.Some? && t.daemonSet.value.template == s.daemonSet.value.template
                              && t.daemonSet.value.generation == s.daemonSet.value.generation)
    && (t.service.Some? ==> s.service.Some? && t.service.value.version == s.service.value.version
                            && t.service.value.ports == s.service.value.ports)
    && (t.ingress.Some? ==> t.ingress == s.ingress)
    && (t.monitor ==> s.monitor)
    && (t.networkDeployment.Some? ==> s.networkDeployment.Some?
                                      && t.networkDeployment.value.template == s.networkDeployment.value.template)
    && (t.networkService ==> s.networkService)
    && t.journal == s.journal
  }

  /* ---- Runs ---- */

  datatype Move = Outside | Reconciled(input: Input)

  ghost predicate Next(s: Store, move: Move, t: Store) {
    match move
    case Outside => Environment(s, t)
    case Reconciled(input) => t == Reconcile(s, input).store
  }

  // Nothing has been deployed yet, and the status is empty.
  ghost predicate Initial(s: Store) {
    && (s.ironic.Some? ==> s.ironic.value.status == EMPTY_STATUS && !s.ironic.value.finalizer)
    && s.jobs == map[] && s.deployment.None? && s.daemonSet.None? && s.service.None? && s.ingress.None?
    && !s.monitor && s.networkDeployment.None? && !s.networkService && s.journal == []
  }

  ghost predicate Run(states: seq<Store>, moves: seq<Move>) {
    && |states| == |moves| + 1
    && Initial(states[0])
    && forall i | 0 <= i < |moves| :: Next(states[i], moves[i], states[i + 1])
  }

  // Spec.Database is set whenever there is an Ironic object.
  ghost predicate HasDatabase(s: Store) {
    s.ironic.Some? ==> s.ironic.value.spec.database
  }

  ghost predicate DatabaseThroughout(states: seq<Store>) {
    forall i | 0 <= i < |states| :: HasDatabase(states[i])
  }
}
