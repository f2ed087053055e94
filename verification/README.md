# A verified model of the Ironic standalone operator

The operator turns one `Ironic` object into secrets, upgrade jobs, a Deployment
or DaemonSet, a service, and optional ingress, metrics and networking objects.
This project models its control flow and its pure algorithms, and proves what
they keep over whole runs.

## What is modelled

- **The reconcile** (`Cluster`, `Workloads`, `SecretManager`, `SwitchSecrets`,
  `Networking`, `Upgrades`, `Deploy`, `Controller`). `Api` is the API server,
  updated in place by each call; the methods follow the code branch by branch
  and are each proved equal to a function on snapshots (`Store`). Every API call
  has a fate: acknowledged, lost before it took effect, or applied although the
  caller sees an error. Any call may fail in any reconcile. A `journal` records
  finished jobs that were seen, workload writes and status writes, so that
  orders can be stated.
- **Runs** (`Runs`, `Preparation`, `Ordering`, `Gates`, `Reports`, `Failures`,
  `Requeues`, `VersionSafety`, `ReadyMeaning`, `RevertedRun`,
  `FinalizerSafety`): reconciles alternate with a user who creates, edits and
  deletes the object and with a cluster that reports progress or loses objects.
  Status and finalizers are the operator's own. `Targets` spells out what a spec
  asks for, without the functions that the reconcile computes it with.
- **Convergence** (`Convergence`, `Fixpoint`): a measure of everything still to
  be written, at most 33, which no reconcile raises and which every reconcile
  of a settled cluster lowers until nothing is left.
- **DHCP** (`Netip`, `DhcpValidation`, `DhcpRendering`): address arithmetic for
  both families, which configurations are accepted, the text for dnsmasq and
  what dnsmasq reads from it.
- **Provider networks** (`ProviderNetworks`), **overrides** (`Overrides`), the
  **in-place merge of pod templates** (`PodMerge`), **htpasswd** (`Htpasswd`),
  the **secret hash** (`SecretHash`) and **versions** (`Versions`).

`Options`, `Text` and `Numbers` are the ground they stand on.

Parameters stand for what the code calls but does not contain: bcrypt and the
Unicode tables (`Crypt`, assumed `Lawful`: bcrypt accepts its own hashes and a
colon is no letter), the readers of `net/netip` (`Reader`, assumed `Lawful`:
empty text is no address, unzoned addresses use hexadecimal digits, colons and
dots), random data, the label-filtered cache and the result of validating a spec.

## Findings

Where a plausible property is false of the code, the exact condition is proved.

- `Compare` is not antisymmetric with `latest` on the right
  (`Versions.CompareIsNotAntisymmetric`); it is the intended order exactly when
  the right operand is a number or the left one is `latest`, as at both callers.
- Ready=True can go with an installed version that differs from the requested
  one. It happens exactly when a reconcile finishes for a request that went back
  to the installed version before the recorded one was installed
  (`ReadyMeaning.ReadyMatchesUnlessReverted`), and `RevertedRun.SomeRunEndsReady`
  gives such a run for any two versions.
- The finalizer does not wait for every managed switch secret: one that the
  cache does not show, say with an empty cache, or that lost its environment
  label outlives the object (`FinalizerSafety.UnseenSecretStays`). What is
  removed is exactly `SwitchSecrets.Deletable`.
- The networking Deployment and Service are replaced as a whole, so once the
  server has filled in defaults, every pass issues an update
  (`PodMerge.ReplacingDoesNotSettle`); the merge that the other objects use
  settles after one write (`PodMerge.MergeSettles`). The update changes nothing
  that is stored.
- An upgrade job whose settings changed after it was created stops the upgrade
  until the job is deleted (`Upgrades.StaleJobBlocks`); convergence needs that
  there is none (`Convergence.JobsCurrent`).
- A reconcile that writes the workload asks for another one, except when a
  service without addresses or an unfinished data job holds it up
  (`Requeues.WritesAreFollowedUp`, `Requeues.CreatedButHeldUp`).
- With a user name of white space only, every pass rewrites the htpasswd entry;
  it settles exactly when the trimmed user name is not empty
  (`Htpasswd.UpdateSettles`).
- Override lists with a repeated name are neither associative nor idempotent in
  general; the exact conditions are `Overrides.Associable` and
  `Overrides.Consistent`, and distinct names satisfy both.
- A negative MTU is written like no MTU (`ProviderNetworks.PortRoundTrip`).
- A VLAN range of one ID (`5-5`) is refused although it denotes an allowed set
  (`ProviderNetworks.AcceptedEntries`).

## Model

| member | source | states |
|---|---|---|
| Controller.ReconcileIronic | internal/controller/ironic_controller.go:85-115 | a reconcile on the live objects, with any fate for each call, ends exactly in the state and with the requeue and error results of the transition function that all run properties are about |
| Controller.HandleIronicObject | internal/controller/ironic_controller.go:135-275 | the phases in their order, each of which may end the reconcile |
| Controller.RecordVersion | internal/controller/ironic_controller.go:154-180 | the downgrade check and the recording of the requested version, with the branches that skip them |
| Controller.EnsureAPISecret | internal/controller/ironic_controller.go:367-404 | generated, linked and updated API credentials, and the failures of each step |
| Controller.GetAndUpdateSecret | internal/controller/ironic_controller.go:311-336 | a linked secret is claimed, and only mistakes of the user are written to the status |
| Controller.UpdateOutcome | internal/controller/ironic_controller.go:277-306 | the status is written only if it changed, and the installed version only together with Ready=True |
| Controller.CleanUpIronic | internal/controller/ironic_controller.go:406-422 | the finalizer goes only after the networking objects and secrets |
| Controller.AddFinalizerTo | internal/controller/utils.go:23-35 | the finalizer is added alone, ending the reconcile, or was there |
| Cluster.CreateOrUpdate | pkg/ironic/upgrades.go:127-142 | read, change, write only on a difference: an unchanged result means that the live object was as desired |
| Cluster.Replace | pkg/ironic/networking_deployment.go:355-408 | read and write back in full; success means that the object is as desired |
| Deploy.Ensure | pkg/ironic/ironic.go:214-275 | validation, pre-upgrade job, removal of the other workload, workload, service, ingress, post-upgrade job and monitor, each waiting for the one before |
| Deploy.EnsureDeployment | pkg/ironic/ironic.go:98-126 | the Deployment is written with a new generation when its template differs, and is otherwise judged by its status |
| Deploy.EnsureDaemonSet | pkg/ironic/ironic.go:43-79 | the same for the DaemonSet |
| Deploy.EnsureIronicService | pkg/ironic/ironic.go:128-199 | the service is written when it differs, and ready once it has addresses |
| Deploy.RemoveOther | pkg/ironic/ironic.go:201-211 | the workload of the other kind is deleted, whichever the mode |
| Deploy.EnsureIronicIngress | pkg/ironic/ingress.go:12-98 | one idempotent write when an ingress is asked for |
| Deploy.EnsureServiceMonitor | pkg/ironic/servicemonitor.go:21-83 | one idempotent write when metrics are exported and the monitor is not disabled, removal otherwise |
| Deploy.ChangesAreNotReady | pkg/ironic/utils.go:129-168 | a template that is new or changed starts a generation of its own, and is not taken for up before the cluster has observed it |
| Upgrades.EnsureJob | pkg/ironic/upgrades.go:107-156 | the upgrade job of a phase is created once per pair of versions and lets the reconcile pass only when seen complete; a job with another template, which the server refuses to change, fails the call |
| Upgrades.StaleJobBlocks | pkg/ironic/upgrades.go:127-150 | a job of the same name with another template holds the upgrade up, whatever the calls |
| Workloads.GetDeploymentStatus | pkg/ironic/utils.go:128-160 | the scan of the conditions: the first failure ends it, and the last progress condition decides whether the roll-out is done |
| Workloads.DeploymentProgressMeans | pkg/ironic/utils.go:128-160 | Ready if and only if the newest generation is observed, no condition says that it stopped progressing or lacks replicas, one says Available, and the last progress condition tells of the new replica set with all replicas updated; fatal if and only if the first failing condition is a passed deadline, transient if and only if it is a replica failure |
| Workloads.DaemonSetProgressMeans | pkg/ironic/utils.go:162-187 | Ready if and only if the newest generation is observed, nothing is unavailable and all scheduled replicas are updated |
| Workloads.GetJobStatus | pkg/ironic/utils.go:198-213 | the first terminal condition decides |
| Workloads.JobDoneMeans | pkg/ironic/utils.go:198-213 | a job is done, or failed for good, if and only if the first condition that holds says so, and otherwise in progress |
| Networking.EnsureNetworking | pkg/ironic/networking_deployment.go:309-408 | networking objects are written in full on every pass and polled, or removed when the service is disabled |
| Networking.RemoveNetworking | pkg/ironic/networking_deployment.go:344-352 | deployment and service are deleted, then the managed switch secrets |
| Networking.RemovalIsComplete | pkg/ironic/networking_deployment.go:344-445 | a removal that reports success has removed deployment, service and exactly the switch secrets that are managed, labelled and in the cache; no removal creates or changes a secret, even when it fails half way |
| Ordering.DeployOrder | pkg/ironic/ironic.go:214-275 | what deploying does, in order: at most one event of the schema job, one workload write, one event of the data job, and readiness only with everything in place |
| Ordering.ReconciledInOrder | internal/controller/ironic_controller.go:135-306 | in one reconcile of an object with a database the workload gets version v only if v is installed or its pre-upgrade job was seen complete before; a post-upgrade job is created only while the workload carries v; the installed version changes only after both jobs, with workload, service, ingress and monitor ready |
| Ordering.MigratedThroughout | pkg/ironic/upgrades.go:33-156 | in every run with a database throughout, no workload was ever given a version before its schema job was seen complete, and both jobs of the installed version were seen complete |
| Ordering.ChangesMigratedThroughout | pkg/ironic/upgrades.go:107-156 | in such runs, whenever the installed version changed from u to v, both jobs named after the way from u to v (none for no version) had been seen complete |
| Ordering.WorkloadsMigrated | pkg/ironic/upgrades.go:107-156 | and whenever the workload was given v while another version u was installed, the schema job from u to v had been seen complete by that very reconcile |
| Ordering.UpgradesHaveTheirOwnJobs | pkg/ironic/upgrades.go:112-122 | upgrades that differ in phase, installed version or target have different jobs |
| VersionSafety.ReconcileKeepsSafe | internal/controller/ironic_controller.go:154-180 | the inductive step of the next three rows: both recorded versions parse, the installed version changes only to the recorded request, and with a database a numeric installed version is at most the requested one |
| VersionSafety.StatusWritesInEveryRun | internal/controller/ironic_controller.go:173-180 | in every run, with or without a database and with any failing call, each write that changes the installed version sets it to the requested version with Ready=True, each write that changes the requested version sets Ready=False, and both versions always parse |
| VersionSafety.NoDowngrade | internal/controller/ironic_controller.go:154-180 | in every run with a database throughout, each write that changes the installed version moreover goes up (latest on top) or away from latest |
| VersionSafety.InstalledNeverGoesDown | internal/controller/ironic_controller.go:154-180 | while the object lives and latest is not installed, the installed version at any later point of a run is at least the earlier one |
| ReadyMeaning.ReconcileOutcome | internal/controller/ironic_controller.go:135-306 | a reconcile leaves the status alone, or reports not Ready with the same version installed, or Ready with the effective version installed |
| ReadyMeaning.ReadyMatchesUnlessReverted | internal/controller/ironic_controller.go:164-180 | Ready=True keeps meaning that the requested version is installed, except exactly when a reverted request is reported Ready |
| ReadyMeaning.ReadyMeansInstalled | internal/controller/ironic_controller.go:277-290 | in any run whose requests never go back, Ready=True implies installed equals requested |
| RevertedRun.RevertedEndsReady | internal/controller/ironic_controller.go:154-180 | a whole run from the creation of a simple object: v gets installed, the answer to the write that records w is lost, the request is taken back, and the next reconcile reports Ready with v installed and w requested |
| RevertedRun.SomeRunEndsReady | internal/controller/ironic_controller.go:154-180 | so for any two versions some run ends Ready with one of them installed and the other one requested |
| Gates.ReconcileGated | internal/controller/ironic_controller.go:135-275 | whatever calls fail, a reconcile deploys nothing and reports no Ready unless the object has its finalizer, is no downgrade, has labelled links and usable credentials, is new enough for extra ranges, has a valid spec, and its networking service is written and running, or gone; and a status that reports Ready is true: everything asked for is written, spelled out field by field, and the newest generation of the workload is up |
| Gates.DeploymentsAreGated | internal/controller/ironic_controller.go:135-306 | so in every run for each workload write, each job created or seen complete, and each Ready status |
| Gates.NotAdmitted | internal/controller/ironic_controller.go:135-275 | an object that is not in order keeps its jobs, workloads, service, ingress and monitor as they are, and gets no Ready status |
| Gates.InvalidSpecIsNotDeployed | pkg/ironic/ironic.go:214-218 | in particular one whose spec validation refuses |
| Gates.RefusedDowngrade | internal/controller/ironic_controller.go:166-171 | a refused downgrade changes nothing but the status, which reports Ready=False if it can be written, and asks for no requeue |
| Gates.QuietEndsAreTrue | internal/controller/ironic_controller.go:240-306 | a reconcile of an admissible version that neither fails nor asks for another one leaves a status about the current generation, and if that says Ready, everything stands |
| Gates.MistakesAreReported | internal/controller/ironic_controller.go:311-336 | a missing or unlabelled link is reported in the status, any other failure to use one is not |
| Reports.UnreadableVersion | internal/controller/ironic_controller.go:146-152 | a version that cannot be read ends with an error, a requeue and Ready=False with reason Failed, and changes nothing else |
| Reports.TooOldForExtraRanges | pkg/ironic/version.go:112-118 | extra ranges with a version below 37.0 end in the same status, without error or requeue |
| Reports.UnusableCredentials | internal/controller/ironic_controller.go:388-397 | credentials whose update is refused end in that status with an error |
| Reports.UnusableGenerated | internal/controller/ironic_controller.go:367-373 | so do generated ones that cannot be used or stored |
| Reports.BadSwitchSecret | internal/controller/ironic_controller.go:227-237 | so does a switch secret that lacks its label, or that the user named but did not bring |
| Reports.FinalizerAdded | internal/controller/utils.go:23-35 | the finalizer is there unless the reconcile fails, and another one is asked for |
| Reports.CleanedUp | internal/controller/ironic_controller.go:406-422 | the finalizer is gone unless the reconcile fails; a failing read or update makes it fail |
| Reports.HtpasswdWritten | internal/controller/ironic_controller.go:393-403 | the stored htpasswd entry is up to date unless the reconcile fails, and another one is asked for |
| Reports.CredentialsNamed | internal/controller/ironic_controller.go:367-386 | generated credentials are stored with their labels, and named by the object unless the reconcile fails |
| Failures.NoFailureIsOverlooked | internal/controller/ironic_controller.go:85-306 | a reconcile that does not fail had the result that it has with all calls working, but for a failure to report a mistake of the user, which the code ignores |
| Failures.SwitchCallFails | pkg/ironic/networking_deployment.go:507-515 | a failing read of a switch secret fails the reconcile and is not reported as a mistake of the user |
| Requeues.WritesAreFollowedUp | pkg/ironic/ironic.go:214-275 | a reconcile that wrote a job, the service or the ingress, or created the monitor, asks for another one or fails; one that wrote the workload does so, with working calls, if and only if nothing after the workload waits for a service address or the data job |
| Requeues.CreatedButHeldUp | pkg/ironic/ironic.go:242-247 | a Deployment that is created while the service has no address is not followed up |
| FinalizerSafety.ReconcileKeeps | internal/controller/ironic_controller.go:135-143 | one reconcile with any failures keeps: networking objects exist only under a finalizer, and Deployment and DaemonSet never coexist |
| FinalizerSafety.CoveredThroughout | internal/controller/ironic_controller.go:135-143 | so in every run |
| FinalizerSafety.FinalizerRemovedLast | internal/controller/ironic_controller.go:406-422 | the finalizer disappears only in a reconcile of a deleted object that has removed the networking deployment and service, and exactly the switch secrets under the configured names that are managed, labelled and in the cache; all other secrets are as before |
| FinalizerSafety.UnseenSecretStays | pkg/ironic/networking_deployment.go:566-684 | with working calls the finalizer goes although a secret that the cache does not show, or that lost its environment label, stays |
| Convergence.DeployConverges | pkg/ironic/ironic.go:214-275 | with working calls and no stale job, deploying never leaves more to write; on a settled cluster it leaves less, or passes having written nothing |
| Convergence.NetworkingConverges | pkg/ironic/networking_deployment.go:309-445 | the same for the networking objects |
| Convergence.InstallConverges | internal/controller/ironic_controller.go:213-275 | the same from the switch secrets to the status write |
| Fixpoint.EveryStepConverges | internal/controller/ironic_controller.go:135-275 | every reconcile of an accepted object keeps it accepted and never leaves more work; on a settled cluster it leaves less, or the status reports Ready with the requested version and a second one is a no-op without requeue; as long as anything is left, it asks for another one |
| Fixpoint.ReconcilesReachAFixpoint | internal/controller/ironic_controller.go:135-306 | in any history of reconciles and cluster progress, after at most 33 settled reconciles everything is in place for good, and every further settled reconcile leaves exactly the status that reports the requested version as installed and ready |
| Fixpoint.SettledReconcilesAreIdle | internal/controller/ironic_controller.go:135-306 | from then on, of two settled reconciles with only settled ones and cluster progress in between, the second changes nothing and asks for no requeue |
| SecretManager.ClaimObject | pkg/secretutils/secret_manager.go:90-137 | an object without the environment label is refused; otherwise the owner is added unless it is among the owners, and an update is due exactly then |
| SecretManager.AcquireSecret | pkg/secretutils/secret_manager.go:68-149 | lookup through the cache and then the API, claim, and write |
| SecretManager.CacheIsTransparent | pkg/secretutils/secret_manager.go:68-85 | with working calls, what the cache happens to show makes no difference |
| SecretManager.ClaimSettles | pkg/secretutils/secret_manager.go:90-137 | claiming twice is claiming once, and no owner is dropped |
| SwitchSecrets.EnsureSwitches | pkg/ironic/networking_deployment.go:472-684 | both switch secrets are created or deleted in order, with all failures |
| SwitchSecrets.SwitchSecretsRespectTheUser | pkg/ironic/networking_deployment.go:472-684 | enabling or disabling networking never changes or deletes a secret without the managed label, and everything new carries both labels |
| SwitchSecrets.SwitchSecretsProvided | pkg/ironic/networking_deployment.go:472-500 | success with networking enabled returns, as configuration, the labelled secret stored under the configured configuration name, else under the name of the object with -switch-config, and as credentials that under the configured credentials name, else with -switch-credentials |
| SwitchSecrets.SwitchSecretsCreated | pkg/ironic/networking_deployment.go:507-651 | with networking enabled nothing is changed or deleted, and what is created goes by those default names, only where the user chose none, with the placeholder for the configuration and no data for the credentials |
| SwitchSecrets.SwitchSecretsCleared | pkg/ironic/networking_deployment.go:566-684 | success with networking disabled removes exactly the secrets under a configured name that are managed, labelled and in the cache, and leaves all others as they were |
| SwitchSecrets.UserSecretsSurvive | pkg/ironic/networking_deployment.go:472-684 | over any sequence of passes and user edits, an unmanaged secret is as the user left it |
| DhcpValidation.ValidateDHCP | pkg/ironic/validation.go:181-254 | accepts if and only if every range is an ordered interval inside its network, extra gateways are IPv4 and inside, the provisioning address is in the main network, and no two ranges share an address; an overlap or range error names a real culprit |
| DhcpValidation.ValidateNoPoolOverlap | pkg/ironic/validation.go:259-292 | finds two overlapping pools if there are any |
| DhcpValidation.ExtraRangeCheckIsExact | pkg/ironic/validation.go:135-179 | the checks of an extra range pass if and only if begin, end and gateway are as they have to be |
| DhcpValidation.OverlapMeansShared | pkg/ironic/validation.go:281-287 | for ranges that are valid on their own, the comparison of endpoints succeeds if and only if some address is in both |
| DhcpValidation.OverlapCheckIsExact | pkg/ironic/validation.go:259-292 | so the overlap check accepts such ranges if and only if they are pairwise disjoint |
| DhcpValidation.AcceptedPoolsAreSound | pkg/ironic/validation.go:181-292 | in an accepted configuration, every address between begin and end of a range is inside its CIDR, and in no other range |
| Netip.ContainsInterval | pkg/ironic/validation.go:38-53 | a prefix that contains two addresses contains all between them |
| Netip.NetmaskValue | pkg/ironic/utils.go:218-226 | the shifted mask is 2^32 - 2^(32-bits), section 3.1 of RFC 4632 |
| Netip.NetmaskSelectsPrefix | pkg/ironic/utils.go:218-226 | the mask selects exactly the addresses that the prefix contains |
| Netip.NetmaskRoundTrip | pkg/ironic/utils.go:218-226 | prefix length and family can be read back from the notation |
| DhcpRendering.BuildDHCPRange | pkg/ironic/containers.go:666-685 | the text is the join of one directive for each readable range |
| DhcpRendering.RangesRoundTrip | pkg/ironic/containers.go:660-685 | for an accepted configuration, splitting on ";" and "," gives back every range in order with begin, end, family, prefix length and tag; none is skipped |
| DhcpRendering.TagsAreDistinct | pkg/ironic/containers.go:662-664 | different ranges have different tags |
| DhcpRendering.TagsCountFromOne | pkg/ironic/containers.go:660-664 | a tag ends with the position of its range, counted from one |
| DhcpRendering.BuildDHCPOptions | pkg/ironic/containers.go:691-715 | the text is the join of the router options that the ranges need |
| DhcpRendering.OptionsRoundTrip | pkg/ironic/containers.go:691-715 | those options can be read back from the text |
| DhcpRendering.ClientsGetTheirRouter | pkg/ironic/containers.go:687-715 | as dnsmasq reads it (router option, section 3.5 of RFC 2132), an IPv4 client of extra range i gets the gateway of that range or no router, never the main gateway; other clients get the main one |
| DhcpRendering.OptionsWhereNeeded | pkg/ironic/containers.go:691-715 | an extra range has an option if and only if it has its own gateway, or it is an IPv4 range and there is a main gateway |
| DhcpRendering.OptionTagsAreSet | pkg/ironic/containers.go:660-715 | each tag has at most one router option, and exactly one range sets it |
| DhcpRendering.DHCPFamilies | pkg/ironic/containers.go:763-781 | a family is reported if and only if some configured CIDR counts for it, unreadable ones for IPv4 |
| DhcpRendering.FamiliesAreThoseRendered | pkg/ironic/containers.go:763-781 | for an accepted configuration those are exactly the families of the rendered directives |
| ProviderNetworks.ValidateProviderNetwork | pkg/ironic/validation.go:450-472 | accepts if and only if the mode is known, VLANs are listed exactly outside access mode, and each entry is accepted |
| ProviderNetworks.ValidateNetworkingService | pkg/ironic/validation.go:433-448 | accepts if and only if every network is valid and no type occurs twice |
| ProviderNetworks.AcceptedEntries | pkg/ironic/validation.go:474-503 | an entry is accepted if and only if it denotes a non-empty set of IDs within 1..4094, of more than one ID for a range |
| ProviderNetworks.FormatProviderNetwork | pkg/ironic/containers.go:459-468 | the text is the join of mode, native VLAN, and VLANs and MTU where set |
| ProviderNetworks.PortRoundTrip | pkg/ironic/containers.go:459-468 | mode, native VLAN, VLAN list and MTU can be read back from the text of a valid network, if and only if the MTU is not negative |
| ProviderNetworks.FormatIsInjective | pkg/ironic/containers.go:459-468 | two valid networks with non-negative MTU and the same text agree in all that is written |
| Overrides.ApplyOverrides | pkg/ironic/utils.go:345-415 | the map-and-delete loops replace the first item of a name in place by the last override of it, and append overrides of new names in order, for all lists with or without duplicates |
| Overrides.OverrideKeepsNamesDistinct | pkg/ironic/utils.go:345-415 | distinct names stay distinct |
| Overrides.NamesOfOverride | pkg/ironic/utils.go:345-415 | the names of the result are those of both lists |
| Overrides.NothingToOverride | pkg/ironic/utils.go:345-415 | the empty list is the identity on either side |
| Overrides.OverrideIsAssociative | pkg/ironic/utils.go:345-415 | applying two override lists in turn is applying their combination if and only if the lists agree on the last override of each existing item whose name the first list repeats and the second one has; in particular if the names of the first are distinct |
| Overrides.DuplicatesBreakAssociativity | pkg/ironic/utils.go:345-415 | with two overrides of one name in the first list, the last of them different from that of the second list, the two ways give different results |
| Overrides.OverrideIsIdempotent | pkg/ironic/utils.go:345-415 | overriding twice is overriding once if and only if the overrides of each new name agree, in particular for distinct names |
| PodMerge.MergePodTemplates | pkg/ironic/utils.go:99-126 | the target becomes the merge of its old value with the source, in place, down to the probe objects; the source is not written |
| PodMerge.MergeContainers | pkg/ironic/utils.go:64-97 | containers are merged one by one, or built anew for another count, and no probe gets shared |
| PodMerge.UpdateProbe | pkg/ironic/utils.go:251-269 | the handler is replaced, and timings of zero get their defaults |
| PodMerge.MergeCopies | pkg/ironic/utils.go:64-126 | whatever was there before, the copied fields equal the source |
| PodMerge.MergedTimings | pkg/ironic/utils.go:251-269 | a merged probe has all its timings set, keeps those of the live object, and gets 1, 5 and 12 when it is new |
| PodMerge.RebuiltContainers | pkg/ironic/utils.go:69-72 | a list of another length is built anew, with nothing left of the old one |
| PodMerge.MergeSettles | pkg/ironic/utils.go:64-126 | however the server completes the merged template, leaving copied fields, counts, absent probes and set timings alone, merging again changes nothing |
| PodMerge.MergeIsIdempotent | pkg/ironic/utils.go:64-126 | merging twice is merging once |
| PodMerge.ReplacingDoesNotSettle | pkg/ironic/networking_deployment.go:355-379 | replacing the template as a whole settles only if the server completes nothing, and there is always something to complete |
| Htpasswd.SecretObject.UpdateSecret | pkg/ironic/secrets.go:117-128 | the htpasswd entry alone is written, exactly when it is due and the credentials are usable |
| Htpasswd.UpToDateMeansAuthenticates | pkg/ironic/secrets.go:93-115 | no update is due if and only if the entry lets in the current user with the current password (section 2 of RFC 7617: no colon in the user name) |
| Htpasswd.RefusedCredentials | pkg/ironic/secrets.go:22-87 | a due update is refused if and only if credentials are missing, the trimmed user name has a character other than letters, numbers, dashes and underscores, or the trimmed password cannot be hashed |
| Htpasswd.TrimmingLeaves | pkg/ironic/secrets.go:54-56 | a normalized value is the one without all the blanks, tabs and line breaks around it, and nothing else |
| Htpasswd.UpdateSettles | pkg/ironic/secrets.go:58-128 | a successful update changes the htpasswd entry only, and a second call has nothing to do if and only if the trimmed user name is not empty |
| SecretHash.SecretVersionAnnotations | pkg/ironic/secrets.go:162-179 | the annotation is the hexadecimal FNV-1a hash of keys and values in the order of the keys, whatever the order of iteration |
| SecretHash.AnnotationIsUnique | pkg/ironic/secrets.go:166-173 | it depends on the data only |
| SecretHash.StepInjective | pkg/ironic/secrets.go:164-173 | each FNV-1a step is injective in the state for a fixed byte and in the byte for a fixed state |
| SecretHash.OneByteChangesTheAnnotation | pkg/ironic/secrets.go:162-179 | replacing any single byte of any one value always changes the annotation |
| SecretHash.OneKeyByteChangesTheAnnotation | pkg/ironic/secrets.go:162-179 | so does replacing any single byte of a key that keeps its place among the keys |
| SecretHash.HashOfA | pkg/ironic/secrets.go:164 | the published FNV-1a hash of a one-letter text |
| SecretHash.HexReads | pkg/ironic/secrets.go:174 | the annotation is the value of the hash in hexadecimal, most significant digit first |
| Versions.ParsePrint | api/v1alpha1/version.go:38-66 | parsing a printed version gives it back, for latest and every positive major with any minor |
| Versions.PrintsDecimals | api/v1alpha1/version.go:38-66 | 37.0 and latest are printed and read as such |
| Versions.PrintIsNormalForm | api/v1alpha1/version.go:38-66 | printing what was parsed is a normal form, shared exactly by the texts of the same version |
| Versions.PrintInjective | api/v1alpha1/version.go:38-44 | different versions print differently |
| Versions.AtMostIsTotalOrder | api/v1alpha1/version.go:19-32 | the order by major and minor with latest on top is total |
| Versions.CompareIsTheOrder | api/v1alpha1/version.go:19-32 | Compare is that order if and only if the right operand is a number or the left one is latest |
| Versions.CompareIsNotAntisymmetric | api/v1alpha1/version.go:19-32 | 30.0 and latest each compare above the other |

## Left out

- The Kubernetes client, watches, events, logging and stale cache contents: an API call is an atomic step with a fate; the cache shows current objects, but possibly not all.
- The text of pod templates: a template is identified with what it is rendered from (version, spec, and the contents of the secrets whose hash it carries), so the environment variables, volumes and images built from them are not modelled, and hash collisions between secret contents do not occur in the state machine.
- A switch secret that is managed, disabled and at the same time named as API credentials: the code still mounts the copy it fetched before deleting it, the model looks the contents up again.
- Fixpoint.ReconcilesReachAFixpoint: assumes that nobody else writes to secrets or the object meanwhile, because otherwise there is always new work.
- The schema of the database: nothing is claimed about it after a request is reverted in the middle of an upgrade, or when a database is added after installation, which runs no job.
- ValidateIronic: its result is a parameter of each reconcile; only the parts for DHCP and provider networks are modelled.
- The check that a trusted CA holds the configured key, and the deprecated names for CAs: thin, and off the main line.
- That the server refuses to change a job's template is taken as given, as is what it fills in on other objects.
- Finalizers and owner references of others, message texts, transition times and events of the conditions.
- Ingress and ServiceMonitor beyond one idempotent write or removal, and whether the cluster knows these kinds of objects.
- Image overrides and image names in WithIronicOverrides: only the effective version matters to the state machine.
- DNS, keepalived, TLS and callback settings, agent images, port names, and the command text of probes: easy claims, branch by branch.
- PodMerge.MergePodTemplates: fields are claimed as far as the code copies them; a probe takes the handler of the source only, and slices count as values, because their elements are never written after they are copied.
- Generated passwords: random data is a parameter.
