// No downgrade of an external database, and what Ready=True says about the
// installed version, over whole runs.
module VersionSafety {
  import opened Versions
  import opened Cluster
  import opened SwitchSecrets
  import opened Networking
  import opened Deploy
  import opened Controller
  import opened Preparation
  import opened Ordering
  import opened Runs

  // A version that may follow another one with an external database: not
  // lower, with latest above every number. From latest, any number may follow.
  ghost predicate Upgrade(from: string, to: string) {
    && ParseVersion(to).Some?
    && (from != "" ==>
          && ParseVersion(from).Some?
          && (ParseVersion(from).value.IsLatest() || AtMost(ParseVersion(from).value, ParseVersion(to).value)))
  }

  // What every status write obeys, with or without a database: the installed
  // version changes only to the recorded request, together with Ready=True,
  // and the recorded request only together with Ready=False.
  ghost predicate StatusWriteOk(before: Status, after: Status) {
    && (after.installed != before.installed ==> after.Ready() && after.installed == after.requested == before.requested)
    && (after.requested != before.requested ==> !after.Ready())
  }

  // What it obeys in addition where there is a database.
  ghost predicate NoDowngradeWritten(before: Status, after: Status) {
    after.installed != before.installed ==> Upgrade(before.installed, after.installed)
  }

  // Each of the following is stated twice in one: for all runs, and, where
  // database is set, for those with a database throughout.
  ghost predicate JournalOk(journal: seq<Event>, database: bool) {
    forall i | 0 <= i < |journal| && journal[i].StatusWritten? ::
      && StatusWriteOk(journal[i].before, journal[i].after)
      && (database ==> NoDowngradeWritten(journal[i].before, journal[i].after))
  }

  // The inductive part: installed and requested are texts of versions, and
  // with a database, what is requested may follow what is installed.
  ghost predicate VersionsInOrder(status: Status, database: bool) {
    && (status.installed != "" ==>
          && ParseVersion(status.installed).Some?
          && (database ==> Upgrade(status.installed, status.requested)))
    && (status.requested != "" ==> ParseVersion(status.requested).Some?)
  }

  ghost predicate Safe(s: Store, database: bool) {
    JournalOk(s.journal, database) && (s.ironic.Some? ==> VersionsInOrder(s.ironic.value.status, database))
  }

  // One reconcile changes the installed version only to one that may follow.
  ghost predicate InstalledStep(s: Store, t: Store, database: bool)
    requires s.ironic.Some?
  {
    && t.ironic.Some? && t.ironic.value.uid == s.ironic.value.uid
    && (var a, b := s.ironic.value.status.installed, t.ironic.value.status.installed;
        a == b || (database ==> Upgrade(a, b)))
  }

  /* ---- One reconcile ---- */

  // The downgrade check, with the branches that skip it.
  lemma RequestInOrder(s: Store, v: ParsedVersion, input: Input, database: bool)
    requires s.ironic.Some? && (database ==> s.ironic.value.spec.database)
    requires VersionsInOrder(s.ironic.value.status, database)
    ensures VersionsInOrder(RequestVersion(s, v, input).store.ironic.value.status, database)
  {
    hide ParseVersion, Complain, Upgrade, Announce;
    var status := s.ironic.value.status;
    ComplainIsSilent(s, DowngradeRefused, input);
    if status.installed == "" || !database {
      AnnounceInOrder(s, v, input, database);
    } else {
      var installed := ParseVersion(status.installed).value;
      if installed.IsLatest() || v.Compare(installed) >= 0 {
        NotADowngrade(status.installed, v);
        AnnounceInOrder(s, v, input, database);
      }
    }
  }

  lemma NotADowngrade(installed: string, v: ParsedVersion)
    requires ParseVersion(installed).Some?
    requires ParseVersion(installed).value.IsLatest() || v.Compare(ParseVersion(installed).value) >= 0
    ensures Upgrade(installed, v.ToString())
  {
    ParsePrint(v);
    CompareIsTheOrder(v, ParseVersion(installed).value);
  }

  lemma AnnounceInOrder(s: Store, v: ParsedVersion, input: Input, database: bool)
    requires s.ironic.Some? && VersionsInOrder(s.ironic.value.status, database)
    requires database && s.ironic.value.status.installed != "" ==>
      Upgrade(s.ironic.value.status.installed, v.ToString())
    ensures VersionsInOrder(Announce(s, v.ToString(), input).store.ironic.value.status, database)
  {
    ParsePrint(v);
    hide ParseVersion, Upgrade;
  }

  lemma QuietKeepsSafe(s: Store, t: Store, database: bool)
    requires s.ironic.Some? && Safe(s, database) && Quiet(s, t) && VersionsInOrder(t.ironic.value.status, database)
    ensures Safe(t, database) && InstalledStep(s, t, database)
  {
    forall i | 0 <= i < |t.journal| && t.journal[i].StatusWritten?
      ensures StatusWriteOk(t.journal[i].before, t.journal[i].after)
      ensures database ==> NoDowngradeWritten(t.journal[i].before, t.journal[i].after)
    {
      if i < |s.journal| {
        assert t.journal[i] == s.journal[i];
      }
    }
  }

  // The last write of a reconcile makes the recorded version the installed one.
  lemma OutcomeInOrder(s: Store, progress: Progress, v: ParsedVersion, input: Input, database: bool)
    requires Safe(s, database) && Recorded(s, v)
    ensures var t := UpdateIronicStatus(s, progress, v.ToString(), input).store;
      Safe(t, database) && InstalledStep(s, t, database)
  {
    hide ParseVersion, AtMost;
    var status := s.ironic.value.status;
    ParsePrint(v);
    var t := UpdateIronicStatus(s, progress, v.ToString(), input).store;
    var after := StatusAfter(s.ironic.value, progress, v.ToString());
    UpgradeToItself(v);
    assert StatusWriteOk(status, after);
    assert VersionsInOrder(after, database);
    forall i | 0 <= i < |t.journal| && t.journal[i].StatusWritten?
      ensures StatusWriteOk(t.journal[i].before, t.journal[i].after)
      ensures database ==> NoDowngradeWritten(t.journal[i].before, t.journal[i].after)
    {
      if i < |s.journal| {
        assert t.journal[i] == s.journal[i];
      }
    }
  }

  lemma UpgradeToItself(v: ParsedVersion)
    ensures Upgrade(v.ToString(), v.ToString())
  {
    ParsePrint(v);
  }

  // Deploying adds no status writes.
  lemma DeployKeepsSafe(s: Store, version: string, input: Input, database: bool)
    requires s.ironic.Some? && Safe(s, database)
    ensures var t := EnsureIronic(s, version, input).0; Safe(t, database) && t.ironic == s.ironic
  {
    hide EnsureIronic, ParseVersion;
    var t := EnsureIronic(s, version, input).0;
    var pre, work, post := DeployOrder(s, version, input);
    assert t.journal == s.journal + (pre + work + post);
    forall i | 0 <= i < |t.journal| && t.journal[i].StatusWritten?
      ensures StatusWriteOk(t.journal[i].before, t.journal[i].after)
      ensures database ==> NoDowngradeWritten(t.journal[i].before, t.journal[i].after)
    {
      if i < |s.journal| {
        assert t.journal[i] == s.journal[i];
      }
    }
  }

  lemma InstallKeepsSafe(s: Store, v: ParsedVersion, input: Input, database: bool)
    requires Safe(s, database) && Recorded(s, v)
    ensures var t := Install(s, v, input).store; Safe(t, database) && InstalledStep(s, t, database)
  {
    hide EnsureNetworkingSwitchSecrets, EnsureIronicNetworking, EnsureIronic, UpdateIronicStatus, Complain;
    hide ParseVersion;
    var ironic := s.ironic.value;
    var (secrets, switches) := EnsureNetworkingSwitchSecrets(s.secrets, ironic, input);
    var t := s.(secrets := secrets);
    ComplainKeepsSafe(t, BadLink(SwitchConfig), input, database);
    ComplainKeepsSafe(t, VersionTooOld, input, database);
    if !switches.Problem? && !VersionTooOldFor(ironic.spec, v) {
      NetworkingIsQuiet(t, switches, v.ToString(), input);
      var stage := EnsureIronicNetworking(t, switches, v.ToString(), input);
      if stage.Passed? {
        DeployKeepsSafe(stage.store, v.ToString(), input, database);
        var (w, progress) := EnsureIronic(stage.store, v.ToString(), input);
        OutcomeInOrder(w, progress, v, input, database);
      }
    }
  }

  lemma ComplainKeepsSafe(s: Store, message: Message, input: Input, database: bool)
    requires s.ironic.Some? && Safe(s, database)
    ensures Safe(Complain(s, message, input), database) && InstalledStep(s, Complain(s, message, input), database)
  {
    hide Complain, ParseVersion;
    ComplainIsSilent(s, message, input);
    QuietKeepsSafe(s, Complain(s, message, input), database);
  }

  lemma ReconcileKeepsSafe(s: Store, input: Input, database: bool)
    requires Safe(s, database) && (database ==> HasDatabase(s))
    ensures Safe(Reconcile(s, input).store, database)
    ensures s.ironic.Some? ==> InstalledStep(s, Reconcile(s, input).store, database)
  {
    hide CleanUp, Prepare, Install, EffectiveVersion, Complain, ParseVersion;
    if s.ironic.Some? {
      if s.ironic.value.deleting {
        CleanUpIsQuiet(s, input);
      } else if s.ironic.value.finalizer {
        ComplainKeepsSafe(s, BadVersion, input, database);
        var v := EffectiveVersion(s.ironic.value.spec, input.defaultVersion);
        if v.Some? {
          var u := Prepare(s, v.value, input);
          PreparedQuietly(s, v.value, input);
          PreparedInOrder(s, v.value, input, database);
          QuietKeepsSafe(s, u.store, database);
          if u.Go? {
            InstallKeepsSafe(u.store, v.value, input, database);
          }
        }
      }
    }
  }

  lemma PreparedInOrder(s: Store, v: ParsedVersion, input: Input, database: bool)
    requires s.ironic.Some? && (database ==> s.ironic.value.spec.database)
    requires VersionsInOrder(s.ironic.value.status, database)
    ensures VersionsInOrder(Prepare(s, v, input).store.ironic.value.status, database)
  {
    hide RequestVersion, EnsureApiSecret, LinkAll, ParseVersion;
    RequestInOrder(s, v, input, database);
    var t := RequestVersion(s, v, input);
    if t.Go? {
      var u := EnsureApiSecret(t.store, input);
      ApiSecretIsSilent(t.store, input);
      LinkAllIsSilent(u.store, input);
    }
  }

  /* ---- Runs ---- */

  lemma EnvironmentKeepsSafe(s: Store, t: Store, database: bool)
    requires Safe(s, database) && Environment(s, t)
    ensures Safe(t, database)
  {
  }

  lemma {:induction false} SafeThroughout(states: seq<Store>, moves: seq<Move>, database: bool, n: nat)
    requires Run(states, moves) && (database ==> DatabaseThroughout(states)) && n <= |moves|
    ensures Safe(states[n], database)
  {
    hide ParseVersion, Reconcile;
    if n > 0 {
      SafeThroughout(states, moves, database, n - 1);
      assert Next(states[n - 1], moves[n - 1], states[n]);
      match moves[n - 1]
      case Outside => EnvironmentKeepsSafe(states[n - 1], states[n], database);
      case Reconciled(input) => ReconcileKeepsSafe(states[n - 1], input, database);
    }
  }

  // In every run, whatever the user requests and whichever calls fail: every
  // write of the status that changes the installed version sets it to the
  // requested version and reports Ready; every write that changes the
  // requested version reports not Ready; and both versions always parse.
  lemma StatusWritesInEveryRun(states: seq<Store>, moves: seq<Move>, n: nat)
    requires Run(states, moves) && n <= |moves|
    ensures forall e | e in states[n].journal && e.StatusWritten? :: StatusWriteOk(e.before, e.after)
    ensures states[n].ironic.Some? ==>
      var status := states[n].ironic.value.status;
      && (status.installed == "" || ParseVersion(status.installed).Some?)
      && (status.requested == "" || ParseVersion(status.requested).Some?)
  {
    SafeThroughout(states, moves, false, n);
  }

  // With an external database throughout, moreover, each change of the
  // installed version moves up from a number or away from latest.
  lemma NoDowngrade(states: seq<Store>, moves: seq<Move>, n: nat)
    requires Run(states, moves) && DatabaseThroughout(states) && n <= |moves|
    ensures forall e | e in states[n].journal && e.StatusWritten? ::
      StatusWriteOk(e.before, e.after) && NoDowngradeWritten(e.before, e.after)
    ensures states[n].ironic.Some? ==>
      var installed := states[n].ironic.value.status.installed;
      installed == "" || ParseVersion(installed).Some?
  {
    SafeThroughout(states, moves, true, n);
  }

  // As long as the object lives and latest is not installed in between, the
  // installed version never goes down.
  lemma {:induction false} InstalledNeverGoesDown(states: seq<Store>, moves: seq<Move>, m: nat, n: nat)
    requires Run(states, moves) && DatabaseThroughout(states) && m <= n <= |moves|
    requires forall i | m <= i <= n :: states[i].ironic.Some? && states[i].ironic.value.status.installed != LATEST
    requires forall i | m <= i <= n :: states[i].ironic.value.uid == states[m].ironic.value.uid
    requires states[m].ironic.value.status.installed != ""
    ensures
      var from := ParseVersion(states[m].ironic.value.status.installed);
      var to := ParseVersion(states[n].ironic.value.status.installed);
      from.Some? && to.Some? && AtMost(from.value, to.value)
    decreases n - m
  {
    SafeThroughout(states, moves, true, m);
    hide Reconcile;
    var from := states[m].ironic.value.status.installed;
    if m < n {
      assert Next(states[m], moves[m], states[m + 1]);
      if moves[m].Reconciled? {
        ReconcileKeepsSafe(states[m], moves[m].input, true);
      }
      var next := states[m + 1].ironic.value.status.installed;
      assert next == from || Upgrade(from, next);
      NumericUnlessLatest(from);
      InstalledNeverGoesDown(states, moves, m + 1, n);
    } else {
      NumericUnlessLatest(from);
    }
  }

  lemma NumericUnlessLatest(text: string)
    requires text != LATEST && ParseVersion(text).Some?
    ensures !ParseVersion(text).value.IsLatest()
  {
  }
}
