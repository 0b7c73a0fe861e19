# Verified models of the scheduler plugins

This project models the scheduler plugins whose behaviour is hardest to see from the code, and proves
what they promise over every input, every run and every reachable state:

- **FlexGPU** (`GpuModel`, `GpuRuns`, `FlexGpu`): an allocator whose only state is an index annotation on each
  pod. Filter and Reserve rebuild the usage of every GPU from the pods of the node and search it. Quantities are
  heap cells, and all GPUs of a node share one memory cell that the search changes through aliases.
- **NUMA alignment** (`NumaModel`, `NumaLaws`, `NumaScopes`, `NumaFilter`): the match of a request with NUMA ids, the greedy
  placement container by container, and the pod-level variant.
- **Elastic quotas** (`QuotaModel`, `Admission`, `ElasticQuotas`): accounting per namespace, admission against Max
  and the summed Min, snapshots.
- **Preemption** (`Pods`, `Disruption`, `Reprieve`, `Toleration`, `CapacityModel`, `QuotaReprieve`, `Capacity`): candidates are removed
  from the list that is being ranged over, split by disruption budgets, and greedily reprieved; once with
  priority-class tolerations, once with quotas.
- **Gang scheduling** (`Gang`, `Coscheduling`, `ClusterCheck`): serial scheduling cycles of PreFilter, Permit and PostFilter,
  each counting on the snapshot it began with, and Unreserve at any time, over waiting pods and two expiring caches;
  the cluster capacity check.
- **Trimaran's pod cache** (`Trimaran`).

Code that changes things step by step is modelled by methods and classes, each proved against functions on values; the
properties of whole runs are lemmas about those functions. Where the code does less than its comments say, the
model follows the code, a lemma says exactly when the promise is kept, and, where the condition alone does not show
it, another gives an input:

- The index search of `MemAssumeFitIndexes` is neither complete nor a bin packing. `FitIndexesCompleteIff` says when it
  lists every fitting GPU, `ReservePicksTightestIff` when the GPU that is written is a tightest fit; in
  `TightestFitMissed` the tightest fit is not listed at all.
- Filter admits exclusive pods that Reserve then cannot place (`AdmittedExclusivePodMayFail`, `ExclusiveReserveIff`).
- A pod that fits one NUMA node as a whole can be turned away container by container, because subtracting an
  unreported resource leaves an entry that is later taken for NUMA affinity (`UnreportedDeviceBlocks`,
  `PodScopeAgainstContainerScope`).
- With an id reported twice a zone can be overdrawn (`SharedIdOverdraws`, `NeverOverdrawsIff`).
- `cleanupCache` leaves a list untouched when all its entries are stale (`CleanupDropsStaleIff`).
- Quota-aware reprieve can remove one pod twice and fail (`SecondRemovalFails`, `FailsIff`), and it can report fewer
  budget violations than it causes (`ViolationUncounted`, `ViolationsExactIff`). A pod older than its quota is charged when
  it is put back, so usage need not drop by the victims (`OlderPodCharged`, `DropsExactlyIff`).
- The gang quorum can count pods that are already rejected or gone (`QuorumCountsFailing`, `QuorumLostDuringCycle`;
  `LostIff`, `LiveQuorumInRuns`).
- The cluster check depends on node order once a node is overcommitted (`OrderMattersWhenOvercommitted`,
  `AcceptsInEveryOrderIff`).

## Model

| member | source | states |
|---|---|---|
| GpuRuns.EveryRunSafe | pkg/flexgpu/flex_gpu.go:41-228 | in every state of every run of Filter with Reserve, Unreserve and removal: indexes in range, an exclusive pod alone on its GPU, each GPU's memory limits within memory/count, the node's sums within its allocatable |
| GpuRuns.StepSafe | pkg/flexgpu/flex_gpu.go:178-228 | every single step keeps that safety, in whatever order the pods are listed |
| GpuRuns.ExclusivePodsAlone | pkg/flexgpu/gpu_node.go:108-116 | in a safe state two different pods on one GPU are both shared ones |
| GpuRuns.ReservedGpuTakesPod | pkg/flexgpu/flex_gpu.go:197-219 | the GPU Reserve writes is in range, free of exclusive pods, empty for an exclusive pod and roomy enough for a shared one |
| GpuRuns.AdmitsIff | pkg/flexgpu/flex_gpu.go:75-116 | a pod of one kind is admitted exactly when both node sums stay within the allocatable amounts and, for a memory pod, some GPU without an exclusive pod has the room; a refusal names the first of these that fails |
| GpuRuns.OtherVerdicts | pkg/flexgpu/flex_gpu.go:52-74 | a pod of no kind is admitted, one of both kinds conflicts, any other needs a node that reports both resources |
| GpuRuns.AdmittedWithinTotals | pkg/flexgpu/flex_gpu.go:82-98 | a pod that Filter admits keeps both node sums within the allocatable amounts |
| GpuRuns.AdmittedMemoryPodReserves | pkg/flexgpu/flex_gpu.go:109-116 | a memory pod that passes Filter gets an index from Reserve on the same pods |
| GpuRuns.ReservePicksTightestIff | pkg/flexgpu/flex_gpu.go:208-219 | whatever order the sort leaves, the GPU written for a memory pod is a tightest fit exactly when no looser fit finds room beside the tightest fits before it |
| GpuRuns.ExclusiveReserveIff | pkg/flexgpu/flex_gpu.go:197-206 | Reserve finds an index for an exclusive pod exactly when some GPU carries no pod |
| GpuRuns.ExclusiveGetsLowest | pkg/flexgpu/flex_gpu.go:178-206 | an exclusive pod gets the lowest GPU that carries no pod; a pod of no kind keeps its annotation and one of both kinds gets none |
| GpuRuns.AdmittedExclusivePodMayFail | pkg/flexgpu/flex_gpu.go:90-118 | a node and a pod that Filter admits and Reserve cannot place |
| GpuRuns.MemoryReserveLowersScore | pkg/flexgpu/gpu_node.go:189-199 | an accepted memory reservation of m lowers MemScore by exactly m |
| GpuRuns.ExclusiveReserveLowersScore | pkg/flexgpu/gpu_node.go:179-187 | an accepted exclusive reservation lowers GPUScore by exactly one |
| GpuRuns.ScoresAre | pkg/flexgpu/gpu_node.go:179-199 | MemScore is the memory of all GPUs less the limits of the indexed pods, GPUScore the number of GPUs that carry no pod |
| GpuModel.BuildGpusUnordered | pkg/flexgpu/gpu_node.go:78-117 | the rebuilt usage is the same for every order of the pods |
| GpuModel.MemoryConserved | pkg/flexgpu/gpu_node.go:67-120 | with indexes in range the used memory of all GPUs is the sum of the limits of the indexed pods |
| GpuModel.FitIndexesSound | pkg/flexgpu/gpu_node.go:122-161 | every index returned fits by the values before the call, and none is returned exactly when none fits |
| GpuModel.FitIndexesCompleteIff | pkg/flexgpu/gpu_node.go:134-147 | all fitting GPUs are returned exactly when their assumed usages together are within the memory of one GPU |
| GpuModel.TightestFitMissed | pkg/flexgpu/gpu_node.go:150-154 | an input on which the tightest fit is not even a candidate |
| GpuModel.PicksTightestIff | pkg/flexgpu/gpu_node.go:122-161 | all returned indexes are tightest fits exactly when, by the values before the call, every looser fit exceeds what the tightest fits below it leave of one GPU's memory |
| GpuModel.LowestMustBeTightest | pkg/flexgpu/gpu_node.go:134-147 | in particular the lowest GPU that fits must be a tightest fit |
| GpuModel.FreeIndexesExact | pkg/flexgpu/gpu_node.go:163-177 | exactly the free GPUs, in ascending order |
| FlexGpu.PodResourceLimit | pkg/flexgpu/flex_gpu.go:121-131 | the sum of a limit over the containers, and whether any container sets it |
| FlexGpu.NodeResourceLimitSum | pkg/flexgpu/flex_gpu.go:133-140 | the sum of a limit over the pods of the node |
| FlexGpu.ConstructGpus | pkg/flexgpu/gpu_node.go:67-120 | the heap of GPUs shows the usage that follows from the pods; all share the memory cell, each has its own usage cell |
| FlexGpu.NewGpuNode | pkg/flexgpu/gpu_node.go:30-65 | each GPU gets an equal part of the memory, rounded down |
| FlexGpu.SortByRemaining | pkg/flexgpu/gpu_node.go:152-154 | all compared quantities are one cell, so no pair is ever ordered; the result is some permutation |
| FlexGpu.MemAssumeFitIndexes | pkg/flexgpu/gpu_node.go:122-161 | the indexes of the search on the values before the call, every usage cell raised by the limit, the shared cell lowered by what was accepted |
| FlexGpu.GpuAssumeFitIndexes | pkg/flexgpu/gpu_node.go:163-177 | the free indexes of the GPUs as they stand |
| FlexGpu.ComputeGpuScore | pkg/flexgpu/gpu_node.go:179-187 | the loop counts the free GPUs |
| FlexGpu.ComputeMemScore | pkg/flexgpu/gpu_node.go:189-199 | the loop sums what the GPUs have left |
| FlexGpu.RunFilter | pkg/flexgpu/flex_gpu.go:41-119 | Filter's verdict, including conflicts, unknown and insufficient resources, which AdmitsIff and OtherVerdicts characterise |
| FlexGpu.Reserve | pkg/flexgpu/flex_gpu.go:178-223 | writes one of the annotations Reserve may write, succeeds exactly when there is one, and otherwise leaves the pod alone |
| FlexGpu.GpuHost.Schedule | pkg/flexgpu/flex_gpu.go:178-223 | one scheduling cycle on the heap is a step of the runs and keeps the node safe; it places the pod exactly when Filter admits it and Reserve has an index |
| FlexGpu.GpuHost.Drop | pkg/flexgpu/flex_gpu.go:225-228 | Unreserve on the heap is a step and keeps the node safe |
| FlexGpu.GpuHost.Remove | vendor/k8s.io/kubernetes/pkg/scheduler/framework/types.go:655-665 | removal by moving the last pod into the gap is a step and keeps the node safe |
| NumaFilter.ResourcesAvailableInAnyNumaNodes | pkg/noderesourcetopology/filter.go:84-150 | for any visiting order and any early exit: yes exactly when one id serves every non-zero resource, with the least such id, and 8 otherwise |
| NumaFilter.ResourceMask | pkg/noderesourcetopology/filter.go:112-132 | the ids that serve one resource, and whether any zone reports it |
| NumaFilter.SubtractFromNuma | pkg/noderesourcetopology/filter.go:219-238 | every zone with the id pays for the request, also for what it did not report; no other zone changes |
| NumaFilter.SingleNumaContainerLevelHandler | pkg/noderesourcetopology/filter.go:41-80 | accepts exactly when every init container fits the untouched zones and the greedy placement gets through, and leaves the zones as that placement does |
| NumaFilter.GetPodEffectiveRequest | pkg/util/resource.go:50-77 | per resource the larger of the containers' sum and the largest init container, for any visiting order |
| NumaFilter.SingleNumaPodLevelHandler | pkg/noderesourcetopology/filter.go:171-187 | accepts exactly when one id serves the effective request |
| NumaLaws.AmountsIgnoredByContainer | pkg/noderesourcetopology/filter.go:152-169 | for a pod that is not Guaranteed, amounts of CPU, memory and huge pages, in requests and in zones, do not change the container-level answer |
| NumaLaws.AmountsIgnoredByPod | pkg/noderesourcetopology/filter.go:171-187 | nor the pod-level answer |
| NumaLaws.PlainRequestIff | pkg/noderesourcetopology/filter.go:152-169 | of such a pod, a request for these resources is met exactly when one id's zones report them all; of a Guaranteed pod, exactly when they have enough |
| NumaLaws.ReportedDecides | pkg/noderesourcetopology/filter.go:116-133 | what a reported resource adds to a request's conditions |
| NumaLaws.UnreportedDecidesNothing | pkg/noderesourcetopology/filter.go:135-138 | an extended resource of the node that no zone reports adds none |
| NumaLaws.MissingResourceTurnsAway | pkg/noderesourcetopology/filter.go:102-108 | a resource the node lacks, or a native one no zone reports, turns the request away |
| NumaLaws.InitContainersAlone | pkg/noderesourcetopology/filter.go:51-63 | at container level a pod is accepted exactly when its containers are, and each init container alone |
| NumaLaws.EffectiveIsLeast | pkg/util/resource.go:50-77 | the effective request is no more than it must be |
| NumaLaws.OneContainerOneAnswer | pkg/noderesourcetopology/filter.go:41-80 | the two levels agree on a pod of one container |
| NumaModel.EffectiveCovers | pkg/util/resource.go:45-49 | the effective request covers the containers together and every init container alone |
| NumaScopes.PodScopeAgainstContainerScope | pkg/noderesourcetopology/filter.go:41-80 | a pod accepted at pod level is accepted at container level unless two containers block each other over an unreported resource, and where amounts matter exactly then |
| NumaScopes.PodScopeIsStricter | pkg/noderesourcetopology/filter.go:171-187 | with every requested resource reported by some zone, pod-level acceptance implies container-level acceptance, for every QoS class |
| NumaScopes.UnreportedDeviceBlocks | pkg/noderesourcetopology/filter.go:226-235 | a pod accepted at pod level and turned away at container level |
| NumaScopes.GreedyNeverOverdraws | pkg/noderesourcetopology/filter.go:65-78 | for a Guaranteed pod, and zones that agree where they share an id, what is placed on a zone never exceeds what it reported |
| NumaScopes.NeverOverdrawsIff | pkg/noderesourcetopology/filter.go:219-238 | no Guaranteed pod that is accepted overdraws a zone exactly when zones with the same id report the same amount of each resource both report, or nothing positive |
| NumaScopes.GreedyBalance | pkg/noderesourcetopology/filter.go:219-238 | what a zone has left is what it reported less what was placed on its id |
| NumaScopes.SharedIdOverdraws | pkg/noderesourcetopology/filter.go:220-236 | with an id reported twice a zone is overdrawn |
| QuotaModel.EveryRunBalanced | pkg/capacityscheduling/capacity_scheduling.go:340-366 | in every run of quota and pod events, Reserve and Unreserve, each quota's usage is the sum of the requests of its pods, each counted once, in every dimension |
| QuotaModel.ApplyBalanced | pkg/capacityscheduling/capacity_scheduling.go:646-751 | every event keeps that balance |
| QuotaModel.EveryRunQuotas | pkg/capacityscheduling/capacity_scheduling.go:646-681 | in every run there is a quota exactly if some event made it and none deleted it since |
| QuotaModel.EveryRunCounts | pkg/capacityscheduling/capacity_scheduling.go:683-751 | in every run a quota counts a pod exactly if it was seen or reserved while the quota was there, and since then neither deleted, unreserved nor finished |
| QuotaModel.EveryRunBounds | pkg/capacityscheduling/capacity_scheduling.go:660-674 | a quota's bounds are those of its last update, or those it was made with |
| QuotaModel.ExceedsByDimension | pkg/capacityscheduling/elasticquota.go:165-181 | cmp2 is the comparison in CPU, memory and the scalars its first argument names |
| QuotaModel.SomeoneBorrows | pkg/capacityscheduling/elasticquota.go:40-51 | if a request keeps its quota within Min in a dimension and pushes the total over the summed Min there, some other quota is over its Min in that dimension |
| QuotaModel.AlwaysBorrowedIff | pkg/capacityscheduling/elasticquota.go:40-51 | whatever the other quotas, a total over the summed Min means a borrower exactly when the request keeps its own quota within Min in the dimension |
| QuotaModel.NamedRequestHasBorrower | pkg/capacityscheduling/elasticquota.go:90-100 | for CPU, memory and the scalars the request names, the preemptor's own check against Min is enough |
| QuotaModel.UnnamedScalarHasNoBorrower | pkg/capacityscheduling/elasticquota.go:174-178 | for a scalar the request does not name that check is not enough, and there may be no such quota |
| Admission.EveryRunWithinBounds | pkg/capacityscheduling/capacity_scheduling.go:201-275 | where pods enter only through PreFilter and Reserve, with releases at any time, every quota stays within Max and the total within the summed Min, in every dimension |
| Admission.PreFilterGivesRoom | pkg/capacityscheduling/capacity_scheduling.go:257-274 | a successful PreFilter leaves room for the pod in its quota and in total, nominated pods notwithstanding |
| Admission.PreFilterIff | pkg/capacityscheduling/capacity_scheduling.go:257-274 | PreFilter succeeds exactly if the pod has no quota, or with what is nominated ahead stays within Max and the summed Min; the first bound broken is named |
| Admission.NomineeCounts | pkg/capacityscheduling/capacity_scheduling.go:230-255 | which nominated pods count against the quota and which in total |
| Admission.ReserveSafe | pkg/capacityscheduling/capacity_scheduling.go:340-353 | reserving with that room keeps both bounds |
| ElasticQuotas.Usage.Reserve | pkg/capacityscheduling/elasticquota.go:74-80 | adds the request in CPU, memory and each scalar |
| ElasticQuotas.Usage.Unreserve | pkg/capacityscheduling/elasticquota.go:82-88 | subtracts it, also from scalars never used |
| ElasticQuotas.ElasticQuotaInfo.AddPodIfNotPresent | pkg/capacityscheduling/elasticquota.go:127-142 | a pod is charged once; one without a uid is an error and changes nothing |
| ElasticQuotas.ElasticQuotaInfo.DeletePodIfPresent | pkg/capacityscheduling/elasticquota.go:144-159 | a pod is released only if it was charged |
| ElasticQuotas.ElasticQuotaInfo.Clone | pkg/capacityscheduling/elasticquota.go:102-125 | equal values in cells that are all new |
| ElasticQuotas.Ledger.Snapshot | pkg/capacityscheduling/elasticquota.go:32-38 | equal quotas that share no memory with the live ones |
| ElasticQuotas.PlayOnSnapshot | pkg/capacityscheduling/capacity_scheduling.go:754-762 | whatever is added to or removed from a snapshot, the live quotas stay as they were |
| ElasticQuotas.Ledger.OnQuotaAdded | pkg/capacityscheduling/capacity_scheduling.go:646-658 | the event of the runs; an existing quota is kept |
| ElasticQuotas.Ledger.OnQuotaUpdated | pkg/capacityscheduling/capacity_scheduling.go:660-674 | the event of the runs; usage and pod set pass to the new quota by reference |
| ElasticQuotas.Ledger.OnQuotaDeleted | pkg/capacityscheduling/capacity_scheduling.go:676-681 | the event of the runs |
| ElasticQuotas.Ledger.OnPodAdded | pkg/capacityscheduling/capacity_scheduling.go:683-715 | the event of the runs; a quota known only to the lister is created first |
| ElasticQuotas.Ledger.OnPodUpdated | pkg/capacityscheduling/capacity_scheduling.go:717-737 | the event of the runs; only a pod that has just finished is released |
| ElasticQuotas.Ledger.Add | pkg/capacityscheduling/capacity_scheduling.go:283-299 | the pod is charged to its namespace's quota and no other cell changes |
| ElasticQuotas.Ledger.Delete | pkg/capacityscheduling/capacity_scheduling.go:302-318 | the pod is released from its namespace's quota and no other cell changes |
| ElasticQuotas.Ledger.AggregatedUsedOverMinWith | pkg/capacityscheduling/elasticquota.go:40-51 | the comparison of summed usage and request with the summed Min, for any visiting order |
| Capacity.RunPreFilter | pkg/capacityscheduling/capacity_scheduling.go:201-275 | the verdict, and the sums over nominated pods kept for later steps |
| Capacity.CollectCandidates | pkg/capacityscheduling/capacity_scheduling.go:515-567 | the loop takes what it should although it changes both the list it ranges over and the usages it tests; it breaks off exactly when a pod to be taken has no uid |
| Capacity.ReprievePod | pkg/capacityscheduling/capacity_scheduling.go:604-627 | one reprieve, including the second removal that fails |
| Capacity.SelectVictimsOnNode | pkg/capacityscheduling/capacity_scheduling.go:465-644 | only pods in reach by quota and priority are evicted, and each outcome exactly when it is due, the failing removals included; on success candidates are kept or victims exactly once, the preemptor fits, its quota and the total have room, the books balance, the choice is the greatest that filters and quotas allow, and it is said when usage drops by exactly the victims and when the violation count is exact |
| Capacity.PreemptOnNode | pkg/capacityscheduling/capacity_scheduling.go:320-338 | PreFilter and then selection on its snapshot, with the selection's outcomes; on success the preemptor's request has room, and the live quotas are untouched |
| Capacity.PreFilterCovers | pkg/capacityscheduling/capacity_scheduling.go:257-264 | what PreFilter sums up for a preemptor with a quota covers its own request |
| Capacity.SelectionIsExact | pkg/capacityscheduling/capacity_scheduling.go:574-643 | with every candidate off the node, selection fails exactly when the request and the nominated pods exceed the quotas and some candidate does not fit by itself; otherwise the outcome is exact |
| Capacity.CandidatesInReach | pkg/capacityscheduling/capacity_scheduling.go:510-567 | by priority, the candidates are exactly the pods of lower priority of the preemptor's quota, or without a quota; otherwise they are of other quotas over their Min; there are none exactly when none is in reach |
| Capacity.TightIff | pkg/capacityscheduling/capacity_scheduling.go:588-593 | when the request alone has no room, by dimension |
| Capacity.SecondRemovalFails | pkg/capacityscheduling/capacity_scheduling.go:609-624 | a quota, a node and a nominated pod with which selection fails although the request alone has room |
| Capacity.ViolationUncounted | pkg/capacityscheduling/capacity_scheduling.go:628-635 | a candidate that fits, is evicted by the quota test and is not counted |
| Capacity.OlderPodCharged | pkg/capacityscheduling/capacity_scheduling.go:646-658 | a pod older than its quota that is taken off uncharged and charged when put back, so that usage rises while nobody is evicted |
| CapacityModel.PassedOverQuotasWithinMin | pkg/capacityscheduling/capacity_scheduling.go:539-552 | after collecting across quotas, a quota that still has a visited pod is within its Min |
| CapacityModel.TakenFromBorrower | pkg/capacityscheduling/capacity_scheduling.go:546-551 | each pod taken came from another quota that was over its Min at that moment |
| CapacityModel.CollectReflects | pkg/capacityscheduling/capacity_scheduling.go:302-318 | while collecting, the snapshot is the original less exactly those pods taken that it counted |
| CapacityModel.ReprievePartitions | pkg/capacityscheduling/capacity_scheduling.go:604-642 | every candidate is kept or a victim, once, and the preemptor fits beside those kept |
| QuotaReprieve.SuccessfulSelection | pkg/capacityscheduling/capacity_scheduling.go:585-643 | on success there is room within Max and the summed Min, and the books balance |
| QuotaReprieve.BooksBalance | pkg/capacityscheduling/capacity_scheduling.go:283-318 | usage afterwards is usage before, less the requests of the counted victims, plus those of the uncounted pods kept |
| QuotaReprieve.DropsExactlyIff | pkg/capacityscheduling/elasticquota.go:127-159 | with non-negative requests a quota's usage drops by exactly its victims exactly when its uncounted candidates ask for nothing |
| QuotaReprieve.FailsIff | pkg/capacityscheduling/capacity_scheduling.go:604-627 | the reprieve fails exactly when the request and the nominated pods exceed the quotas before it starts and some candidate does not fit by itself |
| QuotaReprieve.OverQuotaEvictsAll | pkg/capacityscheduling/capacity_scheduling.go:619-624 | if they exceed the quotas and it succeeds all the same, every candidate is evicted and no violation is counted |
| QuotaReprieve.RoomyReprieveLexGreatest | pkg/capacityscheduling/capacity_scheduling.go:585-643 | if they do not, it succeeds, keeps the lexicographically greatest set that filters and quotas allow together, and no victim is needless |
| QuotaReprieve.ReprieveIsGreedy | pkg/capacityscheduling/capacity_scheduling.go:604-627 | it is then the greedy choice under one test on the set of pods put back |
| QuotaReprieve.OverIffNoRoom | pkg/capacityscheduling/elasticquota.go:165-181 | the two quota checks on the changing snapshot are a bound on the requests of the pods put back |
| QuotaReprieve.ViolationsExactIff | pkg/capacityscheduling/capacity_scheduling.go:628-635 | the reported violations never exceed the violating victims, and equal them exactly when there is no violating candidate or the quotas have room for those that the filters alone would keep |
| NodeInfos.NodeInfo.RemovePod | vendor/k8s.io/kubernetes/pkg/scheduler/framework/types.go:645-691 | the last pod moves into the gap; fails exactly when the pod has no uid or its uid is absent, and then changes nothing |
| NodeInfos.NodeInfo.AddPodInfo | vendor/k8s.io/kubernetes/pkg/scheduler/framework/types.go:583-609 | the pod is appended, in place or in a larger array |
| NodeInfos.RangeTake | pkg/preemptiontoleration/preemption_toleration.go:211-229 | removing the visited pod overwrites no cell the loop has yet to read |
| Disruption.FilterPodsWithPdbViolation | pkg/capacityscheduling/capacity_scheduling.go:857-902 | counting the allowances down in place yields the two groups |
| Disruption.GroupStable | pkg/preemptiontoleration/preemption_toleration.go:355-400 | each pod comes right after the earlier pods of its group |
| Disruption.GroupsPartition | pkg/preemptiontoleration/preemption_toleration.go:393-397 | the groups hold all pods and nothing else |
| Disruption.SpareGroupWithinBudget | pkg/preemptiontoleration/preemption_toleration.go:386-390 | the non-violating pods never exceed any budget |
| Disruption.ViolatingIff | pkg/capacityscheduling/capacity_scheduling.go:865-896 | a pod is violating exactly when some budget is charged for it, and for more pods up to it than it allows |
| Disruption.SinglePodViolates | pkg/capacityscheduling/capacity_scheduling.go:868-890 | whom a budget is charged for: namespace, a selector that names labels, the pod's labels, and not already disrupted |
| Reprieve.GreedyLexGreatest | pkg/preemptiontoleration/preemption_toleration.go:249-281 | with a monotone fit the pods kept are the lexicographically greatest feasible set in processing order |
| Reprieve.VictimsNeeded | pkg/preemptiontoleration/preemption_toleration.go:253-268 | putting any single victim back breaks the fit |
| Reprieve.GreedyPartitions | pkg/preemptiontoleration/preemption_toleration.go:269-281 | every candidate is kept or a victim, never both |
| Reprieve.GreedyFits | pkg/preemptiontoleration/preemption_toleration.go:243-267 | the preemptor fits beside the pods kept |
| Toleration.PolicyDecides | pkg/preemptiontoleration/preemption_toleration.go:148-174 | a lower-priority pod whose class parses is a candidate exactly if the preemptor has the minimum priority, or the toleration is not for ever and has run out since the pod was scheduled |
| Toleration.CandidateIff | pkg/preemptiontoleration/preemption_toleration.go:123-174 | in every case a pod is a candidate exactly if it is not protected and its class is not missing |
| Toleration.CandidatesGrow | pkg/preemptiontoleration/preemption_toleration.go:136-174 | as time goes on no candidate of a node is lost |
| Toleration.PreemptionStaysPossible | pkg/preemptiontoleration/preemption_toleration.go:208-243 | so with monotone filters a node that can be freed for the preemptor stays one |
| Toleration.RemoveCandidates | pkg/preemptiontoleration/preemption_toleration.go:208-229 | ranging over a list while removing from it still meets every pod once, in order; only a missing priority class or a candidate without a uid is an error |
| Toleration.SortByImportance | pkg/preemptiontoleration/preemption_toleration.go:248 | a reordering by priority and start time |
| Toleration.OrderedWithinGroups | pkg/preemptiontoleration/preemption_toleration.go:248-252 | within each group pods of higher priority are reprieved first, and of the same priority those that started earlier |
| Toleration.ReprievePod | pkg/preemptiontoleration/preemption_toleration.go:253-268 | the pod stays on the node exactly when the preemptor fits beside it |
| Toleration.SelectVictimsOnNode | pkg/preemptiontoleration/preemption_toleration.go:182-283 | protected pods are never evicted, and each outcome exactly when it is due; on success the preemptor fits, no victim is needless, the choice is the greatest in order, and the count is that of violating victims |
| Gang.EveryRunSafe | pkg/coscheduling/coscheduling.go:140-237 | in every reachable state of serial cycles and concurrent Unreserves a group with a waiting pod has fewer assigned pods than it needs, and no group is both denied and permitted |
| Gang.NextSafe | pkg/coscheduling/core/core.go:149-216 | every step keeps that |
| Gang.ReleaseIsComplete | pkg/coscheduling/coscheduling.go:202-213 | waiting pods are released only by a Permit of their group that reaches its quorum, of pods with a place or deleted during the cycle, and then none of the group waits |
| Gang.RejectedGroupTurnedAway | pkg/coscheduling/core/core.go:155-157 | a rejected group is turned away while its denial lasts |
| Gang.PassesIff | pkg/coscheduling/core/core.go:149-196 | who passes PreFilter |
| Gang.TurnedAwayUntilExpiry | pkg/coscheduling/core/core.go:188-194 | in every run, a group that the cluster cannot hold is turned away until its denial expires |
| Gang.PermittedOnlyIfEnough | pkg/coscheduling/core/core.go:194-195 | a group comes to be permitted only by a step in which the cluster has what it asks for |
| Gang.EntryStaysFor | vendor/github.com/patrickmn/go-cache/cache.go:68-97 | how long an entry of the caches stays |
| Gang.RejectedIff | pkg/coscheduling/coscheduling.go:140-237 | a waiting pod is rejected exactly by a PostFilter that finds its group short by more than a tenth, or by an Unreserve of another of its group, and then the group is denied |
| Gang.PostFilterDenies | pkg/coscheduling/coscheduling.go:148-176 | a PostFilter denies a group exactly when it is short by more than a tenth |
| Gang.LostIff | pkg/coscheduling/core/core.go:301-318 | in every run, a cycle counts no lost pod exactly when none of the group has left since it began and none was on its way out then |
| Gang.LiveQuorumInRuns | pkg/coscheduling/core/core.go:199-216 | in every run, a Permit that just completes its group leaves a live quorum exactly then; of a group already complete, exactly when the members still placed that were not on their way out are enough |
| Gang.PromptQuorumIff | pkg/coscheduling/core/core.go:149-216 | if rejected pods were still within their group's denial when the cycle began, only leaving during the cycle matters |
| Gang.QuorumCountsFailing | pkg/coscheduling/core/core.go:268-271 | a run in which the denial expires before the rejected pod is unreserved, and the quorum counts it |
| Gang.QuorumLostDuringCycle | pkg/coscheduling/core/core.go:301-318 | a run in which a member times out between PreFilter and Permit of the last one, and the snapshot still counts the group |
| Gang.TenPercentExact | pkg/coscheduling/coscheduling.go:156-160 | for groups of up to two to the twenty-fourth the test on the 32-bit quotient is the exact one |
| Coscheduling.CalculateAssignedPods | pkg/coscheduling/core/core.go:301-318 | the loops count the group's assigned pods |
| Coscheduling.Plugin.RunPreFilter | pkg/coscheduling/core/core.go:149-196 | begins a cycle of the protocol; a pod passes exactly if its group is not denied, has members enough, and asks for nothing, is permitted, or the cluster accepts its request with its pod count; only these answers permit or deny a group |
| Coscheduling.EnoughByTotals | pkg/coscheduling/core/core.go:185-188 | without overcommitted nodes that is a comparison of the cluster's totals outside the group with the request and the pod count |
| Coscheduling.Plugin.RunPermit | pkg/coscheduling/coscheduling.go:184-216 | the step of the protocol: the pod waits, or the whole group is let go |
| Coscheduling.Plugin.RunPostFilter | pkg/coscheduling/coscheduling.go:140-176 | the step of the protocol, with its two exceptions |
| Coscheduling.Plugin.RunUnreserve | pkg/coscheduling/coscheduling.go:224-237 | the step of the protocol: the group is rejected and denied, and the pod gives up its place |
| ClusterCheck.CheckClusterResource | pkg/coscheduling/core/core.go:322-342 | accepts exactly when each named resource is met by some prefix of the nodes; otherwise the gap is what remains |
| ClusterCheck.GetNodeResource | pkg/coscheduling/core/core.go:349-382 | what a node has left outside the group |
| ClusterCheck.OneMorePod | pkg/coscheduling/core/core.go:349-382 | the group's own pods are not noticed; any other takes its request, and one of the places |
| ClusterCheck.EmptyNodeLeft | pkg/coscheduling/core/core.go:360-380 | an empty node has left what it offers |
| ClusterCheck.AcceptsByTotals | pkg/coscheduling/core/core.go:322-342 | without overcommitted nodes this is the comparison with the cluster's totals outside the group |
| ClusterCheck.AcceptsUnordered | pkg/coscheduling/core/core.go:323-340 | and then the order of the nodes does not matter |
| ClusterCheck.MetInEveryOrderIff | pkg/coscheduling/core/core.go:323-341 | a quantity is met in every order of the nodes exactly when it is within the cluster's total leftover |
| ClusterCheck.MetInSomeOrderIff | pkg/coscheduling/core/core.go:323-341 | a positive quantity is met in some order exactly when it is within the leftover of the nodes that are not overcommitted |
| ClusterCheck.AcceptsInEveryOrderIff | pkg/coscheduling/core/core.go:322-342 | a request is accepted in every order exactly when each named quantity is within the cluster's total leftover |
| ClusterCheck.OrderMattersWhenOvercommitted | pkg/coscheduling/core/core.go:329-336 | two nodes, one overcommitted, that accept one way round only |
| Trimaran.EveryRunTimely | pkg/trimaran/handler.go:68-138 | under a non-decreasing clock every run of adds, moves, deletes and cleanups keeps each list sorted by time |
| Trimaran.CleanupDropsStaleIff | pkg/trimaran/handler.go:113-131 | stale entries are dropped exactly when the list is empty or its newest entry is fresh |
| Trimaran.BoundIsKept | pkg/trimaran/handler.go:113-131 | in every run the entry of a pod that was bound is there for sixty seconds at least, unless it is unbound |
| Trimaran.UnboundIsGone | pkg/trimaran/handler.go:82-101 | in every run a pod bound to a node once and unbound since has no entry there |
| Trimaran.FreshOnlyIff | pkg/trimaran/handler.go:120-129 | a cleanup that drops anything keeps exactly the entries of the last sixty seconds |
| Trimaran.SearchFresh | pkg/trimaran/handler.go:120-122 | the binary search finds the first fresh entry |
| Trimaran.CleanNode | pkg/trimaran/handler.go:118-136 | in place in the array, exactly the stale prefix goes, unless all is stale, and the cells at the end are cleared |
| Trimaran.RemoveEntry | pkg/trimaran/handler.go:90-99 | in place in the array, the first entry with the uid goes and the last cell is cleared |
| Trimaran.Append | pkg/trimaran/handler.go:108-109 | in place while there is capacity, otherwise in a new array with the old one untouched |
| Trimaran.PodAssignEventHandler.UpdateCache | pkg/trimaran/handler.go:103-111 | the entry is appended under the pod's node, if it has one |
| Trimaran.PodAssignEventHandler.OnUpdate | pkg/trimaran/handler.go:73-80 | only a change of node is recorded |
| Trimaran.PodAssignEventHandler.OnDelete | pkg/trimaran/handler.go:82-101 | the first entry with the uid goes and the rest keep their order |
| Trimaran.PodAssignEventHandler.CleanupCache | pkg/trimaran/handler.go:114-138 | every list is cleaned at its own reading of the clock; no two nodes share an array |

## Left out

- Informers, listers, clientsets, patches, Bind, leader election and command entry points: plumbing around the decisions.
- Locks and data races: each handler and plugin call is one atomic step, on the snapshot of the cycle.
- Integer width: amounts are unbounded, so overflow of int64 and int32 counters is not modelled; quantities are integers, not decimals.
- Decimal formatting of the index annotation: it is modelled as missing, malformed, or a number.
- Exclusive requests for several GPUs: the plugin ignores the amount, and so does the model beyond the node sums.
- A node that reports zero GPUs: the division in `NewGPUNode` panics, so a positive count is required where GPUs are reported.
- Parsing of zone names into NUMA ids, and the QoS class, which is an input.
- `computePodResourceRequest`, the sum, maximum and overhead behind a pod's request: the request is an input, fixed per pod.
- `PodEligibleToPreemptOthers`, candidate counts and offsets, and `Less`: easy branching.
- Filter plugins and nominated pods during preemption: "fits" is a function of the set of pods on the node; monotonicity is assumed only where a clause says so.
- Label selectors with expressions: a selector is a set of required labels.
- Scores and their normalisation other than the two FlexGPU scores, all floating-point scoring, and the controllers.
- `PostBind`: its count is written only when the phase changes.
- FlexGpu.SortByRemaining: states only that the result is a permutation, because all compared quantities are one cell.
- Capacity.Reorder: states nothing about the resulting order, because the comparison passed to the sort holds of a pod and itself.
- Coscheduling.Plugin.RunPostFilter: the ten percent test is exact here and a 32-bit quotient in the code, which differs only for groups beyond those of TenPercentExact.
- NumaScopes.PodScopeAgainstContainerScope: says nothing of blocked pods with an unreported resource whose amount is not compared, a qualified name that starts like huge pages on a pod that is not Guaranteed.
- ClusterCheck.MetInSomeOrderIff: speaks of one quantity; which whole requests some order accepts, where the best orders of two resources can conflict, is not stated.
