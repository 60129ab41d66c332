# Argora: models and proofs

Argora is a Kubernetes operator that mirrors a NetBox inventory into cluster resources and back. This project models
its controllers in Dafny and proves what they keep, where they end up and what they may leave behind, when calls fail,
replies get lost, the process restarts and other people change both stores in between.

| component | files |
|---|---|
| IPUpdate: one NetBox address record for each `IPAddress` object | `Netbox`, `IpamRequests`, `MergePatch`, `Decimal`, `IPUpdate`, `IPUpdateSafety`, `IPUpdateRecords`, `IPUpdateLeaks`, `IPUpdateConvergence`, `IPUpdateOutcome`, `IPUpdateReachability`, `IPUpdateController` |
| IPPoolImport: IP pools from NetBox prefixes | `IPv4`, `PoolImport` |
| Update: clean-up of devices | `DeviceUpdate`, `DeviceWrites` |
| ClusterImport (IronCore): BMCs and their secrets | `DeviceNames`, `IronCore`, `IronCoreController` |
| status of the three custom resources | `Status` |

`dafny verify dfyconfig.toml` checks everything.

## How it is modelled

Every controller is modelled call by call. A call is answered (`Done`), fails before it takes effect (`Refused`), or
takes effect and then reports a failure (`Lost`). On every error the controllers make no further call in that pass, so a
crash between two calls is a `Refused` of the next one, and a crash during a call is a `Lost`. The answers are given in
advance, call by call, to the class that makes the calls (`Replies`), and the theorems hold for all of them; so it can be
said what happens when none of a pass's calls fails (`Answered`), and a pass that fails or skips something without a
failed call would not meet its contract.

**IPUpdate.** `IPUpdate` is a step machine: the stores (objects, records, interfaces, devices), a program counter with one
position per API call and the local variables of the reconcile, and a history of what reconciles found, created and
recorded. A run is a sequence of actions: begin a reconcile, an answer to the pending call, a step of somebody else, a
crash. The reconciles of this controller are serial, so there is one program counter. The theorems are about all runs.
`IPUpdateController` is the controller in its own form, a class whose methods call and branch; each of its executions,
with arbitrary interference before every call, is proved to be a run of the machine.

**The other controllers** are classes over their stores with the source's loops. Their methods are proved against
functions that say where a pass ends, and against relations that say where it can be cut short; the theorems about
retries are about these.

What such a function gives is stated once more, in terms of the inputs and without it, by a lemma (most are called
`...Meaning`), and the methods and theorems that end at a goal say so too.

Findings, all stated as proved conditions or counterexamples:

- The delete goes by id after a lookup by address, so a record that is re-addressed or moved in between is deleted
  nevertheless; such runs exist for every object that can be synced (`ForeignRecordIsDeleted`). Nothing else can go wrong
  in between (`LookupToDelete`).
- The delete guard compares the interface only. It is safe because the address of an `IPAddress` cannot be edited;
  if it could, a foreign record would be deleted, again for every object that can be synced (`ForeignAddressIsDeleted`).
- A deletion does not ask for the finalizer (`DeletesIff`). An object that another finalizer keeps deletes again: a new
  record of its address on the annotated interface is deleted by the next reconcile (`KeptObjectDeletesAgain`); such runs
  exist for every object that can be synced (`KeptObjectIsReached`).
- A merge patch does not restore a key that it does not change: exactly when the intended value arrives is `PatchArrives`.
- Two controllers writing whole device records lose a change exactly when the last record sent came from the other
  controller and from a copy without it (`MissingIff`), which takes a split read-write pair (`OnlySplitPairsLose`).
- A device passes the Update controller exactly when one interface alone has a vendor's name or the remote board's, and
  one address alone is on it (`Passable`). A device with two such interfaces does not, in any number of passes
  (`TwoBoardsDoNotPass`, `Requeue`).
- A hostname whose read fails is reported as success: a pass succeeds one BMC patch short of the goal exactly when the
  device can pass, none of the calls of the three NetBox stages fails, and one of the two reads after them does
  (`DeviceUpdate.Skips`, stated of `ReconcileDevice` and `Requeue`). A failure later in the stage is an
  error.
- An ignored BMCSecret can be altered when its first read fails otherwise than with NotFound, so that the annotation is not
  seen. Exactly then, with the region and the second read answered, is it altered: if its labels or data differ, they are
  overwritten, unless the write is refused; if not, and the BMC is new and gets created, a secret without an owner gets
  the BMC as its owner, unless that patch is refused (`IronCoreController.AltersIgnored`, stated of
  `Importer.ReconcileDevice`). As long as these lookups are answered it is never altered (`RunsKeep`).
- A pass that is cut short between creating a BMC and setting the secret's owner leaves the owner unset for good
  (`RetryMeaning`).
- Transit pool names are not injective beyond zone suffixes without a final digit: every suffix with any number from 11 on
  shares its name with another suffix, and so does number 0 (`TransitNamesCollide`).

Assumptions:

- Reads are fresh. NetBox ids are at least 1, are not reused and fit an int; list calls return complete results; NetBox
  keeps (device, interface name) unique.
- For an address on a device interface the assigned object id is the id of the assigned interface (one field, `iface`).
- A device record that is written back carries over all fields that are not set on purpose; there is no IPv6 primary
  address, so the primary IP is the primary IPv4 address.
- The platform that the Update controller sets exists exactly once in NetBox; otherwise its lookup is a failed call.
- Nobody else edits IPUpdate's finalizer and annotations; nobody else writes the status of the custom resources.
- A request that was in flight when the process died takes effect then or never.
- The object read of the status handler comes from a cache and replaces the whole copy in memory, and deleted custom
  resources do not come back within a reconcile.
- The text of an address that was parsed and printed parses again (the out-of-band address of a BMC).

## Model

| member | source | states |
|---|---|---|
| `Decimal.AtoiItoa` | internal/controller/ipupdate_controller.go:408-416 | An id printed into an annotation parses back to the same id, over the whole 64-bit range |
| `Decimal.ParsePrint` | internal/controller/ippoolimport_controller.go:247-251 | Reading back the decimal text of a natural number gives the number, so printing is injective |
| `Decimal.PrintParse` | internal/controller/ipupdate_controller.go:221-222 | The printed text is the only one without a leading zero that reads as the number |
| `Decimal.LeadingDigit` | internal/controller/ippoolimport_controller.go:247-251 | Reading is positional: the first digit counts its power of ten |
| `Decimal.AtoiMeaning` | internal/controller/ipupdate_controller.go:408-416 | Digits without a sign or with one are read as that number, if it is one of 64 bits |
| `Decimal.AtoiRejects` | internal/controller/ipupdate_controller.go:408-416 | Nothing else is read as a number |
| `MergePatch.PatchEffect` | internal/controller/ipupdate_controller.go:212-224 | Applied to any later version, a patch gives the writer's value at the keys the writer changed and keeps the stored value at all others (RFC 7396, section 2) |
| `MergePatch.PatchArrives` | internal/controller/ipupdate_controller.go:497-507 | The intended value arrives at a key if and only if the writer changed that key or nobody else did |
| `MergePatch.PatchRoundTrip` | internal/controller/ipupdate_controller.go:212-224 | Against the version it was computed from, the patch gives exactly the intended map |
| `MergePatch.PatchesCommute` | internal/controller/ipupdate_controller.go:212-224 | Patches that change different keys can be applied in either order |
| `Netbox.PrefixMeaning` | internal/controller/ipupdate_controller.go:231-240 | The key is the address with its prefix length, 32 if none is given, within the limits of the family; an error only if the address does not parse |
| `Netbox.GetIPAddressByAddress` | internal/netbox/ipam/ipam.go:56-72 | None, one or many, exactly as the set of records with that address and prefix length is empty, a singleton or larger |
| `Netbox.LookupExact` | internal/netbox/ipam/ipam.go:56-72 | The lookup finds record i if and only if i is the only record with that address |
| `Netbox.ZeroSelectsAll` | internal/netbox/ipam/ipam_requests.go:73-82 | A request for interface id 0 selects every record, which is why ids have to start at 1 |
| `Netbox.LagMeaning` | internal/controller/ipupdate_controller.go:512-531 | Exactly the interfaces of type lag that are named LAG and one digit count |
| `Netbox.BestLagMeaning` | internal/controller/ipupdate_controller.go:512-541 | The target is an interface named LAG and a digit, of type lag, with the greatest digit; none only if there is no such interface |
| `Netbox.BestLagFirst` | internal/controller/ipupdate_controller.go:528-533 | Of several with the greatest digit, the first of the list is taken |
| `Netbox.BestLagOrderIndependent` | internal/controller/ipupdate_controller.go:512-541 | With unique interface names the target does not depend on the order of NetBox's list |
| `Netbox.FindTargetInterface` | internal/controller/ipupdate_controller.go:512-541 | The loop over maxLag and target computes the specified choice |
| `Netbox.GetDeviceByName` | internal/netbox/dcim/dcim.go:42-55 | A device is returned only if it is the only one of that name, an error only if it is not exactly one |
| `Netbox.DeviceByNameMeaning` | internal/netbox/dcim/dcim.go:42-55 | A device is found if and only if it is the only one of that name |
| `IpamRequests.LastOptionCounts` | internal/netbox/ipam/ipam_requests.go:48-71 | Of several options for the same field the last one counts, whatever options for the other field stand around it |
| `IpamRequests.ListIPAddressesRequest.constructor` | internal/netbox/ipam/ipam_requests.go:48-55 | Assigning the fields option by option gives the fold of the options |
| `IpamRequests.ListIPAddressesRequest.BuildRequest` | internal/netbox/ipam/ipam_requests.go:73-82 | A record passes the built filter if and only if the request selects it, where 0 and the empty address select everything |
| `IpamRequests.GetIPAddressesForInterface` | internal/netbox/ipam/ipam.go:74-84 | For a positive interface id, exactly the records of that interface |
| `IPUpdate.Without` | internal/controller/ipupdate_controller.go:126-128 | The finalizer is gone, all others are there as before, and a list without it stays as it is |
| `IPUpdate.WithoutConcat` | internal/controller/ipupdate_controller.go:126-128 | Removal works on each part of the list by itself, so order and number of the other finalizers stay |
| `IPUpdate.CallsRunOut` | internal/controller/ipupdate_controller.go:83-183 | Every answer, also a failing one, lowers the number of calls the reconcile can still make, so each reconcile ends |
| `IPUpdateSafety.RunInv` | internal/controller/ipupdate_controller.go:83-183 | Every run keeps: stored interface annotations are backed by the history, the copy held of an object with the finalizer is still the stored one, and creating, re-pointing, annotating and dropping the finalizer happen only with the finalizer stored (a record may be deleted without it) |
| `IPUpdateSafety.FactOrigin` | internal/controller/ipupdate_controller.go:205-229 | Everything in the history was learned in one particular answered call of the run |
| `IPUpdateSafety.AnnotationHistory` | internal/controller/ipupdate_controller.go:205-229 | An annotated interface was first found or given by a reconcile of that object for that address, and recorded later |
| `IPUpdateSafety.DeletionSafety` | internal/controller/ipupdate_controller.go:351-392 | In every run, a record about to be deleted was read with exactly the object's address and prefix length, on an interface that an earlier reconcile of the same object had the address on and then stored in its annotations |
| `IPUpdateSafety.DeletesWhatItRead` | internal/controller/ipupdate_controller.go:362-387 | Unless somebody edits that one record, the record the delete call will hit stays the record that was read |
| `IPUpdateSafety.LookupToDelete` | internal/controller/ipupdate_controller.go:362-387 | From the lookup to the effect of the delete: unless somebody edits the found record, exactly that record goes, with the address and on the annotated interface it was found with, or nothing |
| `IPUpdateSafety.MovedRecordIsDeleted` | internal/controller/ipupdate_controller.go:385-387 | That proviso is needed: a record moved to another interface after the lookup is deleted |
| `IPUpdateSafety.EditedRecordIsDeleted` | internal/controller/ipupdate_controller.go:385-387 | The same for a record given another address; reachable by ForeignRecordIsDeleted |
| `IPUpdateSafety.EditedAddressDeletes` | internal/controller/ipupdate_controller.go:378-387 | The immutable address is needed: after an address edit a record of the new address is deleted; reachable by ForeignAddressIsDeleted |
| `IPUpdateSafety.MetadataArrives` | internal/controller/ipupdate_controller.go:205-229 | In every run the metadata patch, whatever was edited since the object was read, leaves exactly the target's two ids in the annotations, no conflict, and every other annotation and everything else as stored |
| `IPUpdateSafety.ConflictArrives` | internal/controller/ipupdate_controller.go:497-510 | The same for the conflict patch: the conflict is named, all else stays as stored |
| `IPUpdateRecords.SingleCreation` | internal/controller/ipupdate_controller.go:255-268 | From at most one record per address and without outside creation, no sequence of reconciles, lost replies and crashes makes two; and at each creation the object is stored with the finalizer |
| `IPUpdateRecords.OutsideCreationDoubles` | internal/controller/ipupdate_controller.go:255-268 | That proviso is needed: a record added between lookup and creation gets a double; reachable by DoubleIsCreated |
| `IPUpdateRecords.AmbiguityFreeze` | internal/controller/ipupdate_controller.go:255-263 | While an address has two or more records, no call of a reconcile for it changes a record, device or interface, and a finalizer that is there is never removed |
| `IPUpdateLeaks.DropsFinalizerIff` | internal/controller/ipupdate_controller.go:362-383 | After the lookup of a deletion the finalizer removal follows if and only if nothing was found, or the annotations are missing or unparsable, or they name another interface |
| `IPUpdateLeaks.DeletesIff` | internal/controller/ipupdate_controller.go:372-387 | After the lookup of a deletion the delete call follows if and only if one record was found and the annotations name its interface, with or without the finalizer |
| `IPUpdateLeaks.LookupBehind` | internal/controller/ipupdate_controller.go:351-392 | Every deletion of a run has its lookup earlier in the run, and stands where the answer led |
| `IPUpdateLeaks.LeakIff` | internal/controller/ipupdate_controller.go:120-136 | Without outside edits of records: when the finalizer is dropped, a record of the address remains if and only if the lookup of this deletion found one and the annotations are missing or unparsable or name another interface than its |
| `IPUpdateLeaks.SyncedObjectsDoNotLeak` | internal/controller/ipupdate_controller.go:351-419 | An object that once completed a reconcile leaves no record of its address on its annotated interface when its finalizer is dropped |
| `IPUpdateConvergence.FinishIsRun` | internal/controller/ipupdate_controller.go:83-183 | A failure-free reconcile is a run of the machine with at most as many calls as its rank |
| `IPUpdateConvergence.RunIsFinish` | internal/controller/ipupdate_controller.go:83-183 | Conversely, any run of answered calls that has ended is the failure-free reconcile |
| `IPUpdateConvergence.ReconcileIsPass` | internal/controller/ipupdate_controller.go:150-182 | The whole effect of a failure-free reconcile of an object with the finalizer, as one change of the stores |
| `IPUpdateConvergence.ReconcileAddsFinalizer` | internal/controller/ipupdate_controller.go:138-148 | The first reconcile of an object adds the finalizer and changes nothing else |
| `IPUpdateConvergence.PassReachesGoal` | internal/controller/ipupdate_controller.go:242-349 | One pass ends in sync (record on the target, primary IP, annotations, no conflict key) or, if the one existing record is elsewhere, with the conflict key and NetBox untouched |
| `IPUpdateConvergence.PassMeaning` | internal/controller/ipupdate_controller.go:150-350 | Everything a pass changes, field by field: finalizer, the two ids and the conflict key, the created record with address, interface, tenant and the one VRF or the global one, the primary IP; and that nothing else changes |
| `IPUpdateConvergence.PassThenFixed` | internal/controller/ipupdate_controller.go:150-182 | A reconcile after a pass changes nothing at all |
| `IPUpdateConvergence.Converges` | internal/controller/ipupdate_controller.go:138-182 | From any state with a resolvable target and an unambiguous address, two failure-free reconciles reach the goal, which is given field by field, change nothing else, and all later ones change nothing |
| `IPUpdateConvergence.CleanDeletion` | internal/controller/ipupdate_controller.go:120-136 | A failure-free deletion, whatever the finalizers: unless the address is ambiguous, its record goes if and only if the annotations name that record's interface, and the finalizer goes if it was there |
| `IPUpdateConvergence.DeletionMeaning` | internal/controller/ipupdate_controller.go:120-136 | What such a deletion leaves: all records but the one found, if both annotations can be read and name its interface; the object without the finalizer, or no object if it had no other finalizer; and all else |
| `IPUpdateConvergence.AnnotationMeaning` | internal/controller/ipupdate_controller.go:394-419 | The annotated interface counts only if both annotations are there and are numbers |
| `IPUpdateOutcome.FinishOutcomeMeaning` | internal/controller/ipupdate_controller.go:83-183 | What a failure-free reconcile reports, by the stores it begins with: no object, unusable address, deletion with no, one or several records, finalizer missing, target not resolvable, conflict, synced |
| `IPUpdateOutcome.RunOutcome` | internal/controller/ipupdate_controller.go:83-183 | The outcome of any run of answered calls is that of the failure-free reconcile |
| `IPUpdateOutcome.SuccessIff` | internal/controller/ipupdate_controller.go:83-183 | By its last call, under any failures, a reconcile is a success if and only if that call is answered and finds what it patches or deletes, or finds that there is no object |
| `IPUpdateOutcome.NothingChanges` | internal/controller/ipupdate_controller.go:83-183 | Without an object, a usable address or a target, or with several records, a failure-free reconcile changes nothing |
| `IPUpdateConvergence.KeptObjectDeletesAgain` | internal/controller/ipupdate_controller.go:120-136 | An object kept by another finalizer deletes again: a new record of its address on the annotated interface goes at the next reconcile; reachable by KeptObjectIsReached |
| `IPUpdateReachability.ReachesSync` | internal/controller/ipupdate_controller.go:138-182 | From a fresh start every object with a resolvable target and no conflict is brought in sync by a run of two failure-free reconciles, and the history knows only this object and address |
| `IPUpdateReachability.ForeignRecordIsDeleted` | internal/controller/ipupdate_controller.go:362-387 | From a fresh start, for every such object, address and interface: a run in which the record is given both after the lookup and is deleted |
| `IPUpdateReachability.ForeignAddressIsDeleted` | internal/controller/ipupdate_controller.go:378-387 | From a fresh start, for every such object and foreign record on its interface: a run with an address edit in which that record is deleted, though no reconcile of the object ever had its address |
| `IPUpdateReachability.DoubleIsCreated` | internal/controller/ipupdate_controller.go:255-268 | From a fresh start with at most one record per address, for every object with a resolvable target and no record: a run with one outside creation, right before the controller's, that leaves two records of the address |
| `IPUpdateReachability.KeptObjectIsReached` | internal/controller/ipupdate_controller.go:120-136 | From a fresh start, for every object that can be synced: a run in which another finalizer keeps it after its deletion was reconciled, a record of its address is added on its interface, and the next reconcile deletes that record |
| `IPUpdateController.Reconciler.Get` | internal/controller/ipupdate_controller.go:87-95 | The read decides the next call from the object that is stored, or ends the reconcile; it is a success if and only if the call is answered, and then returns what is stored |
| `IPUpdateController.Reconciler.PatchFinalizerList` | internal/controller/ipupdate_controller.go:126-148 | The list sent is the read one with the finalizer added, or without it; either way the reconcile ends, and it reports which was done, or the failure |
| `IPUpdateController.Reconciler.FindByAddress` | internal/netbox/ipam/ipam.go:56-72 | The lookup call moves the machine as its reply says, to the deletion branches or to the address branches; where no call follows, the reconcile is a success only for a deletion that found at most one record |
| `IPUpdateController.Reconciler.DeleteIPAddress` | internal/netbox/ipam/ipam.go:141-148 | May be called only where the machine is about to delete that very record |
| `IPUpdateController.Reconciler.UpdateMetadata` | internal/controller/ipupdate_controller.go:205-229 | Success means that the call was answered and the history has the interface as recorded; if it takes effect, the annotations name the target's ids and no conflict, and all others are as stored |
| `IPUpdateController.Reconciler.SetConflict` | internal/controller/ipupdate_controller.go:497-510 | The conflict patch is the last call of its reconcile, which succeeds only if it is answered; if it takes effect, the conflict is named and all other annotations are as stored |
| `IPUpdateController.Reconciler.GetDeviceName` | internal/controller/ipupdate_controller.go:453-485 | Leads to the device lookup for the returned name, or ends the reconcile |
| `IPUpdateController.Reconciler.DeviceByName` | internal/netbox/dcim/dcim.go:42-55 | Leads to the interface list of the returned device, or ends the reconcile |
| `IPUpdateController.Reconciler.InterfacesForDevice` | internal/netbox/dcim/dcim.go:128-138 | Leads to the address lookup for the best LAG of the returned list, or ends the reconcile if there is none |
| `IPUpdateController.Reconciler.PrefixVrfs` | internal/netbox/ipam/ipam.go:129-139 | Leads to the creation with the one VRF returned, else the global one |
| `IPUpdateController.Reconciler.CreateIPAddress` | internal/netbox/ipam/ipam.go:157-174 | May be called only with the record the machine is about to create; an id is returned only if that record has it |
| `IPUpdateController.Reconciler.UpdateDevice` | internal/netbox/dcim/dcim.go:183-190 | May be called only with the device as read but for the primary IP |
| `IPUpdateController.Reconciler.ReconcileDelete` | internal/controller/ipupdate_controller.go:351-392 | Success leads to the finalizer removal for the reason the found record and the annotations give, or is the end; failure ends the reconcile with an error |
| `IPUpdateController.Reconciler.Delete` | internal/controller/ipupdate_controller.go:120-136 | The record first, then the finalizer if it is there; a success only if every call was answered |
| `IPUpdateController.Reconciler.CreateAddress` | internal/controller/ipupdate_controller.go:296-323 | The new record has the object's address, the target interface, the device's tenant and the one matching prefix's VRF, else the global one |
| `IPUpdateController.Reconciler.ReconcileAddress` | internal/controller/ipupdate_controller.go:242-294 | Settled, conflict or error, each where the machine stands |
| `IPUpdateController.Reconciler.ReconcilePrimary` | internal/controller/ipupdate_controller.go:325-350 | No call if the primary IP is already the record, else one device write; then the metadata patch is due |
| `IPUpdateController.Reconciler.FindTarget` | internal/controller/ipupdate_controller.go:426-451 | Three reads that end at the lookup for exactly the returned device and interface, or the end of the reconcile |
| `IPUpdateController.Reconciler.Sync` | internal/controller/ipupdate_controller.go:150-182 | The reconcile has ended; it returns what its last call and the answer decide, and is a success only if every call was answered |
| `IPUpdateController.Reconciler.Record` | internal/controller/ipupdate_controller.go:198-229 | Primary IP, then annotations; a success only if both calls were answered |
| `IPUpdateController.Reconciler.Begun` | internal/controller/ipupdate_controller.go:87-182 | From the read of the object to the end of the reconcile, every call is the one the machine is at; a success only if every call was answered |
| `IPUpdateController.Reconciler.Reconcile` | internal/controller/ipupdate_controller.go:83-183 | Every execution extends a run of the machine; it is a success only if every call was answered, and with the interface recorded if it says so; with no failed call and no interference it leaves what the failure-free reconcile leaves, and reports what the stores it began with say, case by case |
| `IPUpdateController.Serve` | internal/controller/ipupdate_controller.go:71-77 | The methods at work, reconcile after reconcile: at most one record per address throughout, under the provisos of SingleCreation; undisturbed, they are the failure-free reconciles |
| `IPv4.BytesRoundTrip` | internal/controller/ippoolimport_controller.go:286-295 | The split of a 32-bit address into four bytes and its join are inverse |
| `IPv4.ShiftedRoundTrips` | internal/controller/ippoolimport_controller.go:289-295 | The same with shifts and ors on the one side and place value on the other |
| `IPv4.LastAddrFormula` | internal/controller/ippoolimport_controller.go:284-296 | The shift-and-or form equals floor(addr / 2^(32-bits)) * 2^(32-bits) + 2^(32-bits) - 1 for every length 0..32 |
| `IPv4.ContainsIsInterval` | internal/controller/ippoolimport_controller.go:274-276 | Contained addresses (equal leading bits, RFC 4632, section 3.1) are exactly those of one aligned interval |
| `IPv4.LastAddrIsMaximum` | internal/controller/ippoolimport_controller.go:281-296 | lastAddrInPrefix is contained in the prefix and no contained address is greater |
| `IPv4.EnumerateIsPrefix` | internal/controller/ippoolimport_controller.go:266-279 | The reference enumeration lists exactly the contained addresses, strictly ascending |
| `IPv4.TopAddress` | internal/controller/ippoolimport_controller.go:268-270 | The walk starts at the last address of the enumeration |
| `IPv4.GetLastNIPs` | internal/controller/ippoolimport_controller.go:267-279 | The downward walk returns the last min(max(n, 0), size) elements of the ascending enumeration, for every prefix, also /0, /32 and with host bits set |
| `IPv4.LastNShape` | internal/controller/ippoolimport_controller.go:266-279 | These are consecutive, inside the prefix, and end at its top address |
| `PoolImport.NameMeaning` | internal/controller/ippoolimport_controller.go:237-255 | The name of a pool for every selector and prefix: the override, or for a compute-transit prefix its site after the region with the number less one, or the site |
| `PoolImport.TransitNamesInjective` | internal/controller/ippoolimport_controller.go:237-255 | For one selector, equal transit names mean equal zone suffix and equal compute number, for suffixes not ending in a digit and numbers from 1 |
| `PoolImport.TransitNamesCollide` | internal/controller/ippoolimport_controller.go:237-255 | Both provisos are needed at every suffix: any number from 11 on shares its name with another suffix, which ends in a digit, and so does number 0 |
| `PoolImport.BottomBlock` | internal/controller/ippoolimport_controller.go:199-204 | The excluded bottom block is the interval of the first 2^(32-e) addresses and nested in the prefix |
| `PoolImport.PoolOfMeaning` | internal/controller/ippoolimport_controller.go:185-220 | A new pool holds the prefix, the address after its first one as gateway, and its length; its exclusion list is the block, the listed addresses in order, and the last n, entry by entry; none is built if and only if the block would not be smaller |
| `PoolImport.PoolCapacity` | internal/controller/ippoolimport_controller.go:180-220 | Exactly max(0, 2^(32-m) - 2^(32-e) - min(n, 2^(32-m))) addresses stay allocatable |
| `PoolImport.GatewayExcluded` | internal/controller/ippoolimport_controller.go:258-264 | The gateway net+1 exists in the prefix, and the bottom block covers it if and only if e is at most 31 |
| `PoolImport.CompletedPassMeaning` | internal/controller/ippoolimport_controller.go:120-168 | A completed pass leaves old pools unchanged and adds, for each new name, exactly the pool of the first (selector, prefix) pair with that name |
| `PoolImport.ServableMeaning` | internal/controller/ippoolimport_controller.go:170-204 | A pass can be served if and only if every pair has a name and, where that was free, the first pair of that name has an exclusion mask longer than its prefix, if any |
| `PoolImport.FirstWinsAbsorbs` | internal/controller/ippoolimport_controller.go:135-168 | A pass on what a cut pass left is the longer of the two passes |
| `PoolImport.InterruptionsDoNotMatter` | internal/controller/ippoolimport_controller.go:120-125 | After any number of interrupted passes a completing one ends like one uninterrupted pass |
| `PoolImport.PoolImporter.Get` | internal/controller/ippoolimport_controller.go:185-187 | A pool is found if and only if the read is answered and the pool exists; any error counts as not found |
| `PoolImport.PoolImporter.Create` | internal/controller/ippoolimport_controller.go:222-226 | Creates exactly the one pool under a free name, or nothing; success means it was free |
| `PoolImport.PoolImporter.BuildPool` | internal/controller/ippoolimport_controller.go:180-220 | The pool built step by step holds exactly what the selector and the prefix ask for, entry by entry; none if and only if the block is not smaller than the prefix |
| `PoolImport.PoolImporter.ReconcileIPPool` | internal/controller/ippoolimport_controller.go:170-234 | One fold step or nothing; without a failed call it succeeds if and only if the step is possible; a new pool has the generated name and holds what is asked for |
| `PoolImport.PoolImporter.ReconcileSelection` | internal/controller/ippoolimport_controller.go:135-168 | Success means all prefixes of the selector were served in order, else the fold was cut short; without a failed call it succeeds if and only if there are prefixes and all can be served |
| `PoolImport.AllJobsMeaning` | internal/controller/ippoolimport_controller.go:120-168 | A pair is worked off if and only if it is a selector with one of NetBox's prefixes for its region and role, in the order of selectors and prefixes |
| `PoolImport.PairAt` | internal/controller/ippoolimport_controller.go:120-168 | Each such pair stands on the list, at the place its selector and prefix give it |
| `PoolImport.PairFrom` | internal/controller/ippoolimport_controller.go:120-168 | Each entry of the list is such a pair |
| `PoolImport.PoolIsThere` | internal/controller/ippoolimport_controller.go:170-234 | After a completed pass each pair has its pool: the old one unchanged, or one that holds what the first pair of that name asks for |
| `PoolImport.PoolImporter.ImportAll` | internal/controller/ippoolimport_controller.go:120-125 | The same for the whole pass over all selectors; success means that every prefix of every selector has its pool |
| `DeviceUpdate.ClassifyExact` | internal/controller/update_controller.go:32-38 | The three tests on interface names are answered by the name's class, and distinct names stay distinct |
| `DeviceUpdate.DesiredMeaning` | internal/controller/update_controller.go:183-357 | The goal of a device that can pass, table by table: which interfaces and addresses go, which are renamed, platform and out-of-band address, the DNS name of the board's address as hostname of the BMC of the device's name if there are both, and all else as before |
| `DeviceUpdate.DesiredIsClean` | internal/controller/update_controller.go:183-320 | The goal has no vendor-named and no vmk interface on the device, and exactly the old non-vmk interfaces |
| `DeviceUpdate.DesiredTwice` | internal/controller/update_controller.go:183-209 | The goal of the goal is the goal |
| `DeviceUpdate.BoardIpIsOobIp` | internal/controller/update_controller.go:242-250 | The remote board's one address is the out-of-band IP of the goal, the same before and after vmk interfaces go |
| `DeviceUpdate.PassableMeaning` | internal/controller/update_controller.go:211-250 | A device can pass if and only if one interface alone has a vendor's or the remote board's name and one address alone is on it |
| `DeviceUpdate.PassableIsRenameable` | internal/controller/update_controller.go:219-234 | A device that can pass can be renamed |
| `DeviceUpdate.CleanPassable` | internal/controller/update_controller.go:239-250 | Once nothing is left to rename, a device can pass if and only if the remote board and its address are found |
| `DeviceUpdate.TwoBoardsDoNotPass` | internal/controller/update_controller.go:219-234 | A device with two interfaces named by vendors, or by a vendor and as remote board, cannot pass |
| `DeviceUpdate.StageLeaves` | internal/controller/update_controller.go:183-209 | Every stage, complete or cut short, leaves the goal and the conditions of passing as they are |
| `DeviceUpdate.RenamedLeaves` | internal/controller/update_controller.go:211-237 | However far the renaming got, the goal is the same |
| `DeviceUpdate.RemovedLeaves` | internal/controller/update_controller.go:275-320 | However far the removal got, the goal is the same |
| `DeviceUpdate.RetriesConverge` | internal/controller/update_controller.go:183-209 | After any sequence of stages, each complete or cut short, the goal is that of the first store, and the device can pass if and only if it could at first |
| `DeviceUpdate.Updater.GetInterfaces` | internal/netbox/dcim/dcim.go:128-138 | Exactly the device's interfaces, or an error |
| `DeviceUpdate.Updater.GetBoard` | internal/netbox/dcim/dcim.go:140-154 | The one interface with the remote board name, or an error |
| `DeviceUpdate.Updater.GetIPs` | internal/netbox/ipam/ipam.go:74-84 | Exactly the addresses on the interface, or an error |
| `DeviceUpdate.Updater.GetOneIP` | internal/netbox/ipam/ipam.go:86-96 | The only address on the interface; none or several are an error |
| `DeviceUpdate.Updater.UpdateDevice` | internal/netbox/dcim/dcim.go:183-190 | The whole record is written, or nothing |
| `DeviceUpdate.Updater.DeleteIP` | internal/netbox/ipam/ipam.go:141-148 | That one address goes, or nothing |
| `DeviceUpdate.Updater.PatchBmc` | internal/controller/update_controller.go:322-357 | The hostname of that one BMC is set, or nothing |
| `DeviceUpdate.Updater.RenameInterface` | internal/netbox/dcim/dcim.go:192-199 | Renames one interface or nothing; success only if the name was free on the device |
| `DeviceUpdate.Updater.DeleteInterface` | internal/netbox/dcim/dcim.go:201-208 | May be called only when no address record refers to the interface, so every record's interface exists in every intermediate state |
| `DeviceUpdate.Updater.RenameEach` | internal/controller/update_controller.go:219-234 | The loop renames only vendor-named interfaces of the device, with one call each, and stops without a failed call only where the name is taken |
| `DeviceUpdate.Updater.RenameBoard` | internal/controller/update_controller.go:211-237 | Only vendor-named interfaces of the device change, to the remote board name; it succeeds if and only if no call fails and an interface to be renamed is alone, with no second one and no remote board |
| `DeviceUpdate.Updater.BoardAddress` | internal/controller/ironcore_controller.go:406-416 | The one address of the one remote board is found if and only if both reads are answered and there is exactly one of each |
| `DeviceUpdate.Updater.UpdateData` | internal/controller/update_controller.go:239-273 | The device has platform and out-of-band IP of the goal and all other fields as before, or nothing happened; no write if they were right; success if and only if no call fails and the remote board has its address |
| `DeviceUpdate.Updater.RemoveIPs` | internal/controller/update_controller.go:289-302 | Only addresses on this vmk interface go, and all of them if and only if no call fails; one list and one call for each |
| `DeviceUpdate.Updater.RemoveInterface` | internal/controller/update_controller.go:289-308 | Only this vmk interface and addresses on it go, all addresses first; success if and only if no call fails |
| `DeviceUpdate.Updater.RemoveVmk` | internal/controller/update_controller.go:275-320 | Only vmk interfaces of that device and addresses on them go, in every state records have their interfaces; none is left, if and only if no call fails, which takes exactly the list, two calls for each interface and one for each address |
| `DeviceUpdate.Updater.UpdateHostname` | internal/controller/update_controller.go:322-357 | The BMC of the device's name gets the DNS name of the one address of the remote board, if there are both, and no other BMC changes; it is skipped with success if and only if one of the two reads fails or does not find that address |
| `DeviceUpdate.Updater.SetHostname` | internal/controller/update_controller.go:333-356 | A BMC with another hostname is patched, a missing one or one that has it already is not; success if and only if no call fails |
| `DeviceUpdate.Updater.ReconcileNetbox` | internal/controller/update_controller.go:192-202 | The three stages in NetBox succeed if and only if the device can pass and no call fails, after exactly the number of calls that the first store determines, and leave everything but the BMC as the goal has it |
| `DeviceUpdate.Updater.ReconcileDevice` | internal/controller/update_controller.go:183-209 | An active or staged device gets a full success, which is the goal and is given table by table, if and only if it can pass and no call fails; success without the hostname if and only if it can pass, no call in NetBox fails, and then one of the two hostname reads does; failure anywhere leaves the same goal; on the goal nothing is written; other devices are left alone |
| `DeviceUpdate.Updater.Requeue` | internal/controller/update_controller.go:183-209 | Any number of failing passes and then a succeeding one end at the goal of the first store; a device that could not pass at first never does, and one that could is given up on only after as many failed calls as attempts; the hostname is missing only if a pass skipped it as above |
| `DeviceWrites.WriteExact` | internal/controller/update_controller.go:257-265 | Writing an older copy does what was meant if and only if nobody changed the other fields since it was read, or nothing is written and the fields are still right |
| `DeviceWrites.UnsplitWritesCommute` | internal/controller/ipupdate_controller.go:325-350 | Any number of unsplit passes of both controllers, in any order, cut short or not, with outside edits: the device has the required fields of whoever completed one, the last outside edit, and everything else as before |
| `DeviceWrites.MissingIff` | internal/controller/ipupdate_controller.go:331-345 | After any sequence of reads, writes, aborted passes and outside edits a requirement is missing if and only if the last record sent came from the other controller and from a copy without it, or none was sent and it was missing before |
| `DeviceWrites.OnlySplitPairsLose` | internal/controller/ipupdate_controller.go:331-345 | Only a write whose read-write pair was split takes away a requirement that was met |
| `DeviceWrites.SplitLosesIff` | internal/controller/ipupdate_controller.go:331-345 | Of the six interleavings of two pairs, the four split ones lose a requirement if and only if both controllers had something to write |
| `DeviceNames.JoinSplit` | internal/controller/ironcore_controller.go:199-202 | Splitting at dashes gives dash-free parts, and joining them gives the name back |
| `DeviceNames.SplitJoin` | internal/controller/ironcore_controller.go:199-202 | Splitting a join of dash-free parts gives the parts back |
| `DeviceNames.SplitTwo` | internal/controller/ironcore_controller.go:199-202 | A name is accepted if and only if it is two dash-free parts around one dash |
| `IronCore.Resolve` | internal/controller/ironcore_controller.go:307-333 | Credentials are found if and only if both parts are there and not empty, in the referenced secret or, without a reference, the central ones; a reference never falls back |
| `IronCore.NameLabels` | internal/controller/ironcore_controller.go:199-222 | The labels for node name and building block are the two parts of the device name, dash-free and in this order |
| `IronCore.LabelsMeaning` | internal/controller/ironcore_controller.go:211-222 | What each of the ten labels says |
| `IronCore.FirstAndLast` | internal/controller/ironcore_controller.go:157-185 | The first and the last job about a name are what their names say |
| `IronCore.BmcMeaning` | internal/controller/ironcore_controller.go:232-252 | Of a BMC after a pass: exists if it did or some job is about it; spec of before, else of the first job; managed labels of the last job over the labels of before |
| `IronCore.SecretMeaning` | internal/controller/ironcore_controller.go:264-305 | Of a secret after a pass: untouched if ignored, else labels and credentials of the last job, annotations of before, owner set only with a BMC new in this pass |
| `IronCore.PassMeaning` | internal/controller/ironcore_controller.go:141-262 | First job decides a new spec, last job the ten managed labels, other labels and existing specs never change, ignored secrets stay as they are |
| `IronCore.RetryMeaning` | internal/controller/ironcore_controller.go:249-260 | A pass after a cut one ends like one uninterrupted pass, but for the owner, which is missing if and only if the cut pass left the BMC without it |
| `IronCore.InterruptionsOnlyLoseOwners` | internal/controller/ironcore_controller.go:126-131 | The same after any number of cut passes |
| `IronCore.RunsKeep` | internal/controller/ironcore_controller.go:126-262 | Over any passes on any inputs, complete or cut short: existing BMCs keep spec and other labels, ignored secrets keep everything |
| `IronCore.CanImportMeaning` | internal/controller/ironcore_controller.go:190-262 | A pass can be done if and only if every active device has a name in two parts, a region, an address and credentials, and a new BMC's secret is ignored, new, or owned by nobody else |
| `IronCore.DevicesImported` | internal/controller/ironcore_controller.go:190-262 | After a completed pass every active device has its BMC, with address, protocol, port, secret and hostname of its first job and the labels of its last, and its secret, with labels and credentials of its last job, or untouched if ignored |
| `IronCoreController.Importer.GetSecret` | internal/controller/ironcore_controller.go:278-283 | An answered read tells whether and which secret there is; a failed one counts as no secret |
| `IronCoreController.Importer.GetBmc` | internal/controller/ironcore_controller.go:232-240 | The same for a BMC |
| `IronCoreController.Importer.CreateOrUpdate` | internal/controller/ironcore_controller.go:285-295 | Labels and data are replaced as a whole exactly when the read is answered and the write takes effect; success if and only if no call fails |
| `IronCoreController.Importer.PatchBmcLabels` | internal/controller/ironcore_controller.go:424-440 | The managed labels are set, all others and the spec stay |
| `IronCoreController.Importer.CreateBmc` | internal/controller/ironcore_controller.go:335-380 | Creates only under a free name; an existing BMC is no error and is not changed, but then the copy is not stored |
| `IronCoreController.Importer.PatchOwnerReference` | internal/controller/ironcore_controller.go:382-393 | Sets the owner and nothing else; success if and only if no other controller owns the secret, the BMC copy was stored, and the call is answered |
| `IronCoreController.Importer.ReconcileBmcSecret` | internal/controller/ironcore_controller.go:264-305 | The secret is left alone if it is ignored and the first read is answered, overwritten otherwise; this step alters an ignored one that differs if and only if the first read fails, the second is answered and the write takes effect; for every answer what is stored, whether it succeeds and how many calls it takes |
| `IronCoreController.Importer.CreateAndClaim` | internal/controller/ironcore_controller.go:242-260 | For every answer: the BMC is created unless there is one, with a hostname if and only if its lookup was answered, then its secret claimed; success if and only if the claim is possible and no call fails |
| `IronCoreController.Importer.ReconcileBmc` | internal/controller/ironcore_controller.go:232-260 | An existing BMC that was read gets the labels, otherwise one is created and claims its secret; for every answer exactly what changes and whether it succeeds |
| `IronCoreController.Importer.ServeDevice` | internal/controller/ironcore_controller.go:227-262 | The same statements from the secret on |
| `IronCoreController.Importer.ReconcileDevice` | internal/controller/ironcore_controller.go:190-262 | With answered lookups: one fold step or one of its intermediate states, and success if and only if the step can be done and no other call fails; for every answer to every call: what is left (DeviceStep), whether it succeeds (DeviceOk), and that an ignored secret is altered if and only if AltersIgnored; no other BMC or secret changes |
| `IronCoreController.Importer.ReconcileCluster` | internal/controller/ironcore_controller.go:160-184 | With answered lookups: the fold over the cluster's devices or a cut of it, complete if and only if it can be done and no other call fails; whatever is answered, each BMC and secret is as it was or as the devices of its name can leave it |
| `IronCoreController.Importer.ReconcileSelection` | internal/controller/ironcore_controller.go:141-188 | The same over the selector's clusters, of which there must be one; success with answered lookups means that every active device of every cluster has its BMC and secret |
| `IronCoreController.AllJobsMeaning` | internal/controller/ironcore_controller.go:126-184 | A triple is worked off if and only if it is a device of a cluster of a selector, as NetBox has them, with the selector's credentials |
| `IronCoreController.TripleAt` | internal/controller/ironcore_controller.go:126-184 | Each such triple stands on the list, at the place its selector, cluster and device give it |
| `IronCoreController.TripleFrom` | internal/controller/ironcore_controller.go:126-184 | Each entry of the list is such a triple |
| `IronCoreController.TriplesInOrder` | internal/controller/ironcore_controller.go:126-184 | The places are in the order of selectors, then clusters, then devices |
| `IronCoreController.Importer.ImportAll` | internal/controller/ironcore_controller.go:126-131 | The same over all selectors: with answered lookups the pass completes if and only if no selector is without clusters, every device can be done and no other call fails, and then every active device of every cluster of every selector has its BMC and secret; whatever is answered, BMCs and secrets that no device names stay as they are |
| `IronCoreController.UntouchedStays` | internal/controller/ironcore_controller.go:126-262 | Whatever is answered, a BMC and a secret whose name no device has are not touched |
| `IronCoreController.PossibleBoth` | internal/controller/ironcore_controller.go:126-185 | What two parts of a pass can do one after the other is what the whole can do, whatever is answered |
| `Status.ReasonsKnown` | api/v1alpha1/conditions.go:34-43 | Each controller's reasons are known, and say True and False |
| `Status.SetStatusCondition` | internal/status/status.go:170-177 | The in-place change of the conditions list computes the specified list |
| `Status.WithConditionMeaning` | internal/status/status.go:170-177 | Entries of other types are untouched, the first of the own type says exactly what was set, its time changes only with its status, and at most one stays at most one |
| `Status.ReportMeaning` | internal/status/status.go:163-177 | Reason, message and truth of the Ready condition, its time, the state and the description for each controller and outcome; conditions of other types are as before |
| `Status.AgreesIff` | internal/status/status.go:77-94 | Condition and state agree after both are set if and only if Ready goes with a True reason and Error with a False one |
| `Status.Handler.Get` | internal/status/status.go:140-142 | A successful read makes the copy in memory the stored resource, a failed one leaves it |
| `Status.Handler.StatusUpdate` | internal/status/status.go:143-146 | A write happens only from the stored version; the spec stays as others wrote it, with or without a status subresource |
| `Status.Handler.Attempt` | internal/status/status.go:139-148 | One try reads a fresh copy and writes the wanted status; without a failed call and a deletion it succeeds if and only if nobody edited in between, and is a conflict otherwise |
| `Status.Handler.Update` | internal/status/status.go:137-149 | Success stores exactly the status from before the retries; without a failed call and a deletion it succeeds if and only if fewer than five read-write pairs in a row have an outside edit between them; a conflict is reported if and only if there were five; at most one write; no outside edit is lost |
| `Status.Handler.SetCondition` | internal/status/status.go:163-168 | Changes conditions in memory only |
| `Status.Handler.UpdateToReady` | internal/status/status.go:151-155 | Success stores Ready, an empty description and the conditions in memory; without a failed call and a deletion it succeeds unless five tries in a row are disturbed |
| `Status.Handler.UpdateToError` | internal/status/status.go:157-161 | Success stores Error, the message and the conditions in memory; without a failed call and a deletion it succeeds unless five tries in a row are disturbed |
| `Status.Handler.Reconcile` | internal/controller/ippoolimport_controller.go:83-133 | A status that is written reports the outcome in state, description, reason, message and truth of the one Ready condition, and leaves other conditions alone; success only with that stored; edits by others survive; without a failed call and a deletion, it is stored unless five tries in a row are disturbed, and success means that and that the work succeeded |
| `Status.Handler.Serve` | internal/status/status.go:133-177 | Over any number of reconciles the stored status is the first one or an agreeing one |

## Left out

- The HTTP and Kubernetes clients, manager set-up, flags, rate limiters, TLS and logging: wiring.
- Reading credential files and the reloads: a call that may fail, folded into the first call of a pass, except in `Status.Handler.Reconcile`, where they are outcomes of their own.
- The metal3 controller: lookup tables and one-shot object building, without state over passes.
- `extras`, `virtualization` and most of `dcim`: given as queries over a store.
- Regular expressions and the parsing of addresses: names come as matched pieces, addresses as values; `ToLower` is for ASCII.
- IPv6 prefixes in pools: the arithmetic of the source is for IPv4 only.
- The chain of claims from an `IPAddress` to its server is one read (`bmcOf`), and the prefixes of an address one list of VRF ids (`vrfs`).
- NetBox's own cascades (an interface that is deleted takes or clears what refers to it) are steps of administrators, not consequences.
- Re-setting a missed owner reference, and re-asserting a primary IP that was lost to a split write, without a new event: the code does not do it; what is lost is stated.
- The loops of the Update controller over selectors, clusters and devices: the same shape as those of the ClusterImport controller.
- The conflict "device" cannot arise in a steady inventory: the target interface belongs to the target device. It is in the machine all the same.
- Label and annotation keys are enumerations, their texts do not matter.
- The type of an interface that is sent along with its new name, and interface fields other than device and name.
- `PoolImport.PoolImporter.ImportAll`: the status written at the end of a pass is in `Status` instead, with the pass as a list of outcomes.
- `IronCoreController.Importer.ImportAll`: when a lookup fails otherwise than with NotFound, the result of a pass over several devices is given as what is possible for each BMC and secret (`Possible`); exactly it is given device by device.
- `Status.Handler.Serve`: deletion and re-creation of the custom resource under the same name.
