/** The ClusterImport controller's pass over selectors, clusters and devices, call by call. */
module IronCoreController {
  import opened Wrappers
  import opened DeviceNames
  import opened IronCore
  import opened MergePatch

  datatype Selector = Selector(name: string, region: string, kind: string, credentialsRef: Option<string>)

  /** What the controller reads: NetBox's clusters and devices, the central credentials and the credential secrets. */
  datatype Inputs = Inputs(
    clusters: map<(string, string, string), seq<Cluster>>, devices: map<int, seq<Device>>,
    central: Creds, credentials: map<string, map<string, string>>)

  function ClustersOf(in_: Inputs, sel: Selector): seq<Cluster> {
    var key := (sel.name, sel.region, sel.kind);
    if key in in_.clusters then in_.clusters[key] else []
  }

  function DevicesOf(in_: Inputs, cluster: Cluster): seq<Device> {
    if cluster.id in in_.devices then in_.devices[cluster.id] else []
  }

  function CredsOf(in_: Inputs, sel: Selector): Option<Creds> { Resolve(sel.credentialsRef, in_.central, in_.credentials) }

  // ---------- the triples in the order the nested loops visit them ----------

  function DeviceJobs(creds: Option<Creds>, cluster: Cluster, devices: seq<Device>): (jobs: seq<Job>)
    ensures |jobs| == |devices| && forall i | 0 <= i < |jobs| :: jobs[i] == Job(creds, cluster, devices[i])
  {
    seq(|devices|, i requires 0 <= i < |devices| => Job(creds, cluster, devices[i]))
  }

  function ClusterJobs(in_: Inputs, creds: Option<Creds>, clusters: seq<Cluster>, n: nat): seq<Job>
    requires n <= |clusters|
  {
    if n == 0 then []
    else ClusterJobs(in_, creds, clusters, n - 1) + DeviceJobs(creds, clusters[n - 1], DevicesOf(in_, clusters[n - 1]))
  }

  function SelectorJobs(in_: Inputs, sel: Selector): seq<Job> {
    ClusterJobs(in_, CredsOf(in_, sel), ClustersOf(in_, sel), |ClustersOf(in_, sel)|)
  }

  function AllJobs(in_: Inputs, sels: seq<Selector>, n: nat): seq<Job>
    requires n <= |sels|
  {
    if n == 0 then [] else AllJobs(in_, sels, n - 1) + SelectorJobs(in_, sels[n - 1])
  }

  lemma {:induction false} ClusterPrefix(in_: Inputs, creds: Option<Creds>, clusters: seq<Cluster>, i: nat, n: nat)
    requires i <= n <= |clusters|
    ensures ClusterJobs(in_, creds, clusters, i) <= ClusterJobs(in_, creds, clusters, n)
    decreases n
  {
    if i < n { ClusterPrefix(in_, creds, clusters, i, n - 1); }
  }

  lemma {:induction false} SelectorPrefix(in_: Inputs, sels: seq<Selector>, i: nat, n: nat)
    requires i <= n <= |sels|
    ensures AllJobs(in_, sels, i) <= AllJobs(in_, sels, n)
    decreases n
  {
    if i < n { SelectorPrefix(in_, sels, i, n - 1); }
  }

  // ---------- what is on that list, and where ----------

  /** Device j of cluster k of selector i, as NetBox has them, with the credentials of the selector. */
  predicate IsTriple(in_: Inputs, sels: seq<Selector>, i: int, k: int, j: int, job: Job) {
    0 <= i < |sels| &&
    var sel := sels[i];
    var key := (sel.name, sel.region, sel.kind);
    && key in in_.clusters && 0 <= k < |in_.clusters[key]| && job.cluster == in_.clusters[key][k]
    && job.cluster.id in in_.devices && 0 <= j < |in_.devices[job.cluster.id]|
    && job.device == in_.devices[job.cluster.id][j]
    && job.creds == Resolve(sel.credentialsRef, in_.central, in_.credentials)
  }

  /** How many devices the first n clusters have. */
  function DevicesIn(in_: Inputs, clusters: seq<Cluster>, n: nat): nat
    requires n <= |clusters|
  {
    if n == 0 then 0
    else
      var id := clusters[n - 1].id;
      DevicesIn(in_, clusters, n - 1) + if id in in_.devices then |in_.devices[id]| else 0
  }

  /** How many triples come before those of selector i. */
  function Before(in_: Inputs, sels: seq<Selector>, i: nat): nat
    requires i <= |sels|
  {
    if i == 0 then 0
    else
      var key := (sels[i - 1].name, sels[i - 1].region, sels[i - 1].kind);
      Before(in_, sels, i - 1) + if key in in_.clusters then DevicesIn(in_, in_.clusters[key], |in_.clusters[key]|) else 0
  }

  /** Where a triple is on the list: selector after selector, cluster after cluster, device after device. */
  function Position(in_: Inputs, sels: seq<Selector>, i: int, k: int, j: int, job: Job): nat
    requires IsTriple(in_, sels, i, k, j, job)
  {
    Before(in_, sels, i) + DevicesIn(in_, in_.clusters[(sels[i].name, sels[i].region, sels[i].kind)], k) + j
  }

  lemma {:induction false} ClusterJobsLength(in_: Inputs, creds: Option<Creds>, clusters: seq<Cluster>, n: nat)
    requires n <= |clusters|
    ensures |ClusterJobs(in_, creds, clusters, n)| == DevicesIn(in_, clusters, n)
  {
    if n > 0 { ClusterJobsLength(in_, creds, clusters, n - 1); }
  }

  lemma {:induction false} AllJobsLength(in_: Inputs, sels: seq<Selector>, n: nat)
    requires n <= |sels|
    ensures |AllJobs(in_, sels, n)| == Before(in_, sels, n)
  {
    if n > 0 {
      AllJobsLength(in_, sels, n - 1);
      var sel := sels[n - 1];
      ClusterJobsLength(in_, CredsOf(in_, sel), ClustersOf(in_, sel), |ClustersOf(in_, sel)|);
    }
  }

  lemma InPart(a: seq<Job>, b: seq<Job>, all: seq<Job>, p: nat)
    requires a + b <= all && p < |b|
    ensures |a| + p < |all| && all[|a| + p] == b[p]
  {
    assert (a + b)[|a| + p] == b[p];
  }

  lemma DeviceAt(in_: Inputs, creds: Option<Creds>, clusters: seq<Cluster>, k: nat, j: nat)
    requires k < |clusters| && j < |DevicesOf(in_, clusters[k])|
    ensures var jobs, p := ClusterJobs(in_, creds, clusters, |clusters|), DevicesIn(in_, clusters, k) + j;
            p < |jobs| && jobs[p] == Job(creds, clusters[k], DevicesOf(in_, clusters[k])[j])
  {
    ClusterPrefix(in_, creds, clusters, k + 1, |clusters|);
    ClusterJobsLength(in_, creds, clusters, k);
    var a, b := ClusterJobs(in_, creds, clusters, k), DeviceJobs(creds, clusters[k], DevicesOf(in_, clusters[k]));
    InPart(a, b, ClusterJobs(in_, creds, clusters, |clusters|), j);
  }

  lemma {:induction false} DeviceFrom(in_: Inputs, creds: Option<Creds>, clusters: seq<Cluster>, n: nat, p: nat)
    returns (k: nat, j: nat)
    requires n <= |clusters| && p < |ClusterJobs(in_, creds, clusters, n)|
    ensures k < n && j < |DevicesOf(in_, clusters[k])| && p == DevicesIn(in_, clusters, k) + j
    ensures ClusterJobs(in_, creds, clusters, n)[p] == Job(creds, clusters[k], DevicesOf(in_, clusters[k])[j])
  {
    ClusterJobsLength(in_, creds, clusters, n - 1);
    if p < |ClusterJobs(in_, creds, clusters, n - 1)| {
      k, j := DeviceFrom(in_, creds, clusters, n - 1, p);
    } else {
      k, j := n - 1, p - |ClusterJobs(in_, creds, clusters, n - 1)|;
    }
  }

  /** Each triple is on the list, at its position. */
  lemma TripleAt(in_: Inputs, sels: seq<Selector>, i: int, k: int, j: int, job: Job)
    requires IsTriple(in_, sels, i, k, j, job)
    ensures var all, p := AllJobs(in_, sels, |sels|), Position(in_, sels, i, k, j, job);
            p < |all| && all[p] == job
  {
    assert 0 <= i < |sels|;
    var a, b := AllJobs(in_, sels, i), SelectorJobs(in_, sels[i]);
    assert AllJobs(in_, sels, i + 1) == a + b;
    hide *;
    SelectorPrefix(in_, sels, i + 1, |sels|);
    AllJobsLength(in_, sels, i);
    InSelector(in_, sels, i, k, j, job);
    InPart(a, b, AllJobs(in_, sels, |sels|), Position(in_, sels, i, k, j, job) - Before(in_, sels, i));
  }

  lemma InSelector(in_: Inputs, sels: seq<Selector>, i: nat, k: int, j: int, job: Job)
    requires IsTriple(in_, sels, i, k, j, job)
    ensures var jobs, p := SelectorJobs(in_, sels[i]), Position(in_, sels, i, k, j, job) - Before(in_, sels, i);
            p < |jobs| && jobs[p] == job
  {
    var clusters := ClustersOf(in_, sels[i]);
    DeviceAt(in_, CredsOf(in_, sels[i]), clusters, k, j);
    hide ClusterJobs, DevicesIn, Before, Resolve;
  }

  /** Nothing else is. */
  lemma {:induction false} TripleFrom(in_: Inputs, sels: seq<Selector>, n: nat, p: nat) returns (i: nat, k: nat, j: nat)
    requires n <= |sels| && p < |AllJobs(in_, sels, n)|
    ensures i < n && IsTriple(in_, sels, i, k, j, AllJobs(in_, sels, n)[p])
    ensures p == Position(in_, sels, i, k, j, AllJobs(in_, sels, n)[p])
  {
    AllJobsLength(in_, sels, n - 1);
    if p < |AllJobs(in_, sels, n - 1)| {
      i, k, j := TripleFrom(in_, sels, n - 1, p);
    } else {
      i := n - 1;
      var clusters := ClustersOf(in_, sels[i]);
      k, j := DeviceFrom(in_, CredsOf(in_, sels[i]), clusters, |clusters|, p - |AllJobs(in_, sels, n - 1)|);
    }
  }

  lemma {:induction false} DevicesInGrows(in_: Inputs, clusters: seq<Cluster>, k: nat, n: nat)
    requires k <= n <= |clusters|
    ensures DevicesIn(in_, clusters, k) <= DevicesIn(in_, clusters, n)
    decreases n
  {
    if k < n { DevicesInGrows(in_, clusters, k, n - 1); }
  }

  lemma {:induction false} BeforeGrows(in_: Inputs, sels: seq<Selector>, i: nat, n: nat)
    requires i <= n <= |sels|
    ensures Before(in_, sels, i) <= Before(in_, sels, n)
    decreases n
  {
    if i < n { BeforeGrows(in_, sels, i, n - 1); }
  }

  /** Positions are in the order of selectors, then clusters, then devices. */
  lemma TriplesInOrder(in_: Inputs, sels: seq<Selector>, i: nat, k: nat, j: nat, job: Job,
                       i': nat, k': nat, j': nat, job': Job)
    requires IsTriple(in_, sels, i, k, j, job) && IsTriple(in_, sels, i', k', j', job')
    requires i < i' || (i == i' && (k < k' || (k == k' && j < j')))
    ensures Position(in_, sels, i, k, j, job) < Position(in_, sels, i', k', j', job')
  {
    var clusters := in_.clusters[(sels[i].name, sels[i].region, sels[i].kind)];
    if i < i' {
      BeforeGrows(in_, sels, i + 1, i');
      DevicesInGrows(in_, clusters, k + 1, |clusters|);
    } else if k < k' {
      DevicesInGrows(in_, clusters, k + 1, k');
    }
  }

  /** A triple is worked off exactly when it is device j of cluster k of selector i for some i, k and j. */
  lemma AllJobsMeaning(in_: Inputs, sels: seq<Selector>, job: Job)
    ensures job in AllJobs(in_, sels, |sels|) <==> exists i, k, j :: IsTriple(in_, sels, i, k, j, job)
  {
    hide IsTriple, Position;
    var all := AllJobs(in_, sels, |sels|);
    if job in all {
      var p :| 0 <= p < |all| && all[p] == job;
      var i, k, j := TripleFrom(in_, sels, |sels|, p);
    }
    if i, k, j :| IsTriple(in_, sels, i, k, j, job) {
      TripleAt(in_, sels, i, k, j, job);
    }
  }

  /** After a completed pass each active device that NetBox has for some selector has its BMC and its secret. */
  ghost predicate AllImported(in_: Inputs, sels: seq<Selector>, before: World, after: World) {
    forall i, k, j, job | IsTriple(in_, sels, i, k, j, job) && job.device.status == "active" ::
      Imported(before, after, AllJobs(in_, sels, |sels|), job.device.name)
  }

  lemma CompletedImports(in_: Inputs, sels: seq<Selector>, before: World, after: World)
    requires Completes(before, after, AllJobs(in_, sels, |sels|))
    ensures AllImported(in_, sels, before, after)
  {
    hide IsTriple, Imported, Import, CanImport;
    forall i, k, j, job | IsTriple(in_, sels, i, k, j, job) && job.device.status == "active"
      ensures Imported(before, after, AllJobs(in_, sels, |sels|), job.device.name)
    {
      AllJobsMeaning(in_, sels, job);
      DevicesImported(before, AllJobs(in_, sels, |sels|), job);
    }
  }

  lemma SelectorImports(in_: Inputs, sel: Selector, before: World, after: World)
    requires Completes(before, after, SelectorJobs(in_, sel))
    ensures AllImported(in_, [sel], before, after)
  {
    hide SelectorJobs, Completes;
    assert AllJobs(in_, [sel], 0) == [];
    assert AllJobs(in_, [sel], 1) == SelectorJobs(in_, sel);
    CompletedImports(in_, [sel], before, after);
  }

  /** A pass over these jobs ran to its end. */
  ghost predicate Completes(before: World, after: World, jobs: seq<Job>) {
    after == Import(before, jobs) && CanImport(before, jobs)
  }

  lemma CompletesBoth(before: World, mid: World, after: World, a: seq<Job>, b: seq<Job>)
    requires Completes(before, mid, a) && Completes(mid, after, b)
    ensures Completes(before, after, a + b)
  {
    ImportAppend(before, a, b);
    CanImportAppend(before, a, b);
  }

  lemma CutCompletely(before: World, after: World, jobs: seq<Job>)
    requires Completes(before, after, jobs)
    ensures CutShort(before, after, jobs) && after == Import(before, jobs) && CanImport(before, jobs)
  {
    assert jobs[..|jobs|] == jobs;
    assert CutAt(before, after, jobs, |jobs|);
  }

  lemma CutAtOnce(before: World, jobs: seq<Job>)
    ensures CutShort(before, before, jobs)
  {
    assert jobs[..0] == [];
    assert CutAt(before, before, jobs, 0);
  }

  lemma CutInOne(before: World, mid: World, after: World, a: seq<Job>, job: Job, all: seq<Job>)
    requires Completes(before, mid, a) && Between(mid, after, job) && a + [job] <= all
    ensures CutShort(before, after, all)
    ensures !CanServe(mid, job) ==> !CanImport(before, all)
    ensures after == Serve(mid, job) && CanServe(mid, job) ==> Completes(before, after, a + [job])
  {
    assert all[..|a|] == a && all[|a|] == job;
    assert CutAt(before, after, all, |a|);
    assert (a + [job])[..|a|] == a;
    assert [job][..0] == [];
    if !CanServe(mid, job) {
      assert !CanImport(mid, [job]);
      CannotPart(before, a, [job], all);
    }
  }

  /** No selector is without clusters, which NetBox's service would report as an error. */
  predicate NoneEmpty(in_: Inputs, sels: seq<Selector>, n: nat)
    requires n <= |sels|
  {
    forall i | 0 <= i < n :: ClustersOf(in_, sels[i]) != []
  }

  /** No BMC goes away or gets another spec, and no secret goes away or gets other annotations. */
  predicate SpecsStay(a: World, b: World) {
    && (forall n | n in a.bmcs :: n in b.bmcs && b.bmcs[n].spec == a.bmcs[n].spec)
    && (forall n | n in a.secrets :: n in b.secrets && b.secrets[n].annotations == a.secrets[n].annotations)
  }

  // ---------- what is possible whatever is answered ----------

  /** The spec of a new BMC, with the hostname if its lookup was answered. */
  function SpecSeen(job: Job, named: bool): BmcSpec
    requires Works(job)
  {
    if named then SpecOf(job) else SpecOf(job).(hostname := None)
  }

  predicate SpecFrom(spec: BmcSpec, job: Job) { Works(job) && spec in {SpecSeen(job, true), SpecSeen(job, false)} }

  predicate LabelsFrom(before: Option<Bmc>, labels: Labels, job: Job) {
    Works(job) && labels == (if before.Some? then before.value.labels else map[]) + ManagedLabels(job)
  }

  /** A BMC is as before, or has the managed labels of some job about it over the labels of before; only a new one gets a spec. */
  ghost predicate BmcPossible(before: Option<Bmc>, after: Option<Bmc>, jobs: seq<Job>, n: string) {
    after != before ==>
    && after.Some?
    && (exists job :: job in jobs && About(job, n) && LabelsFrom(before, after.value.labels, job))
    && (if before.Some? then after.value.spec == before.value.spec
        else exists job :: job in jobs && About(job, n) && SpecFrom(after.value.spec, job))
  }

  predicate BodyFrom(before: Option<Secret>, after: Secret, job: Job) {
    || (before.Some? && after.labels == before.value.labels && after.data == before.value.data)
    || (Works(job) && after.labels == ManagedLabels(job) && after.data == job.creds)
  }

  /**
   A secret is as before, or there is some job about it: then it keeps its annotations, has labels and data of before or
   of such a job, and its owner of before or, if it had none, the BMC of its name.
   */
  ghost predicate SecretPossible(before: Option<Secret>, after: Option<Secret>, jobs: seq<Job>, n: string) {
    after != before ==>
    && after.Some?
    && after.value.annotations == (if before.Some? then before.value.annotations else map[])
    && (after.value.owner == OwnerOf(before) || (OwnerOf(before) == None && after.value.owner == Some(n)))
    && exists job :: job in jobs && About(job, n) && BodyFrom(before, after.value, job)
  }

  ghost predicate PossibleAt(before: World, after: World, jobs: seq<Job>, n: string) {
    && BmcPossible(Get(before.bmcs, n), Get(after.bmcs, n), jobs, n)
    && SecretPossible(Get(before.secrets, n), Get(after.secrets, n), jobs, n)
  }

  /** Every BMC and every secret is as some work on these jobs can leave it; those that no job is about are as before. */
  ghost predicate Possible(before: World, after: World, jobs: seq<Job>) {
    forall n :: PossibleAt(before, after, jobs, n)
  }

  lemma UntouchedStays(before: World, after: World, jobs: seq<Job>, n: string)
    requires Possible(before, after, jobs) && forall job | job in jobs :: !About(job, n)
    ensures Get(after.bmcs, n) == Get(before.bmcs, n) && Get(after.secrets, n) == Get(before.secrets, n)
  {
    assert PossibleAt(before, after, jobs, n);
  }

  lemma BmcPossibleBoth(x: Option<Bmc>, y: Option<Bmc>, z: Option<Bmc>, a: seq<Job>, b: seq<Job>, n: string)
    requires BmcPossible(x, y, a, n) && BmcPossible(y, z, b, n)
    ensures BmcPossible(x, z, a + b, n)
  {
    hide SpecFrom, ManagedLabels, Works, About;
    if y != x && z != y {
      var one :| one in a && About(one, n) && LabelsFrom(x, y.value.labels, one);
      var two :| two in b && About(two, n) && LabelsFrom(y, z.value.labels, two);
      LabelsOverwritten(if x.Some? then x.value.labels else map[], ManagedLabels(one), ManagedLabels(two));
      assert two in a + b && LabelsFrom(x, z.value.labels, two);
      if x.None? {
        var first :| first in a && About(first, n) && SpecFrom(y.value.spec, first);
        assert first in a + b;
      }
    }
  }

  lemma SecretPossibleBoth(x: Option<Secret>, y: Option<Secret>, z: Option<Secret>, a: seq<Job>, b: seq<Job>, n: string)
    requires SecretPossible(x, y, a, n) && SecretPossible(y, z, b, n)
    ensures SecretPossible(x, z, a + b, n)
  {
    hide ManagedLabels;
    if y != x && z != y {
      var one :| one in a && About(one, n) && BodyFrom(x, y.value, one);
      var two :| two in b && About(two, n) && BodyFrom(y, z.value, two);
      assert one in a + b && two in a + b;
      assert BodyFrom(x, z.value, one) || BodyFrom(x, z.value, two);
    }
  }

  lemma PossibleBoth(before: World, mid: World, after: World, a: seq<Job>, b: seq<Job>)
    requires Possible(before, mid, a) && Possible(mid, after, b)
    ensures Possible(before, after, a + b)
  {
    hide BmcPossible, SecretPossible;
    forall n ensures PossibleAt(before, after, a + b, n) {
      assert PossibleAt(before, mid, a, n) && PossibleAt(mid, after, b, n);
      BmcPossibleBoth(Get(before.bmcs, n), Get(mid.bmcs, n), Get(after.bmcs, n), a, b, n);
      SecretPossibleBoth(Get(before.secrets, n), Get(mid.secrets, n), Get(after.secrets, n), a, b, n);
    }
  }

  lemma PossibleAtOnce(w: World, jobs: seq<Job>)
    ensures Possible(w, w, jobs)
  {
  }

  lemma PossibleAmong(before: World, after: World, a: seq<Job>, b: seq<Job>)
    requires Possible(before, after, a) && forall job | job in a :: job in b
    ensures Possible(before, after, b)
  {
    forall n ensures PossibleAt(before, after, b, n) {
      assert PossibleAt(before, after, a, n);
    }
  }

  lemma PossiblePart(before: World, mid: World, after: World, a: seq<Job>, b: seq<Job>, all: seq<Job>)
    requires Possible(before, mid, a) && Possible(mid, after, b) && a + b <= all
    ensures Possible(before, after, a + b) && Possible(before, after, all)
  {
    PossibleBoth(before, mid, after, a, b);
    PossibleAmong(before, after, a + b, all);
  }

  // ---------- one device, once its secret is settled ----------

  function WithBmc(w: World, job: Job): World
    requires Works(job)
  {
    w.(bmcs := ServeBmc(w.bmcs, job))
  }

  function Settled(w: World, job: Job, skipped: bool): World
    requires Works(job)
  {
    if job.device.name in w.bmcs || skipped then WithBmc(w, job)
    else WithBmc(w, job).(secrets := Claim(w.secrets, job.device.name))
  }

  predicate CanSettle(w: World, job: Job, skipped: bool) {
    job.device.name in w.bmcs || skipped || Claimable(w.secrets, job.device.name)
  }

  /**
   Settling the secret, exactly, by whether it was seen to be ignored, and how the second read and the write are answered.
   There is no write when labels and data are as wanted.
   */
  predicate SecretStep(w0: World, w1: World, job: Job, seen: bool, read: Reply, write: Reply)
    requires Works(job)
  {
    && w1.bmcs == w0.bmcs
    && w1.secrets == if !seen && read.Done? && !write.Refused? then Overwritten(w0.secrets, job) else w0.secrets
  }

  predicate SecretOk(w0: World, job: Job, seen: bool, read: Reply, write: Reply)
    requires Works(job)
  {
    seen || (read.Done? && (Overwritten(w0.secrets, job) == w0.secrets || write.Done?))
  }

  function SecretCalls(w0: World, job: Job, seen: bool): nat
    requires Works(job)
  {
    if seen then 0 else if Overwritten(w0.secrets, job) == w0.secrets then 1 else 2
  }

  /**
   Creating a BMC that was not found and claiming its secret, exactly, by how the lookup of the hostname (`named`), the
   creation and the owner patch are answered.
   */
  predicate Created(w0: World, w: World, job: Job, skipped: bool, named: bool, create: Reply, patch: Reply)
    requires Works(job)
  {
    var n := job.device.name;
    && w.bmcs == (if create.Refused? || n in w0.bmcs then w0.bmcs
                  else w0.bmcs[n := Bmc(SpecSeen(job, named), ManagedLabels(job))])
    && w.secrets == (if n !in w0.bmcs && !skipped && create.Done? && !patch.Refused? then Claim(w0.secrets, n) else w0.secrets)
  }

  predicate CreatedOk(w0: World, job: Job, skipped: bool, create: Reply, patch: Reply) {
    create.Done? && (skipped || (job.device.name !in w0.bmcs && Claimable(w0.secrets, job.device.name) && patch.Done?))
  }

  /**
   What a device's reconcile leaves, exactly, by its answers: the lookups are of the secret, the BMC and the hostname, from
   l on; the region was call c.
   */
  predicate DeviceStep(w0: World, w: World, job: Job, lookups: Replies, l: nat, replies: Replies, c: nat)
    requires Works(job)
  {
    var n := job.device.name;
    var seen := lookups[l].Done? && IsIgnored(Get(w0.secrets, n));
    var w1 := w0.(secrets := if !seen && replies[c + 1].Done? && !replies[c + 2].Refused? then Overwritten(w0.secrets, job)
                             else w0.secrets);
    var c1 := c + 1 + SecretCalls(w0, job, seen);
    if !SecretOk(w0, job, seen, replies[c + 1], replies[c + 2]) then w == w1
    else if lookups[l + 1].Done? && n in w0.bmcs then w == if replies[c1].Refused? then w1 else WithBmc(w1, job)
    else Created(w1, w, job, seen, lookups[l + 2].Done?, replies[c1], replies[c1 + 1])
  }

  /** And exactly when it succeeds. */
  predicate DeviceOk(w0: World, job: Job, lookups: Replies, l: nat, replies: Replies, c: nat)
    requires Works(job)
  {
    var n := job.device.name;
    var seen := lookups[l].Done? && IsIgnored(Get(w0.secrets, n));
    var w1 := w0.(secrets := if seen then w0.secrets else Overwritten(w0.secrets, job));
    var c1 := c + 1 + SecretCalls(w0, job, seen);
    && SecretOk(w0, job, seen, replies[c + 1], replies[c + 2])
    && if lookups[l + 1].Done? && n in w0.bmcs then replies[c1].Done?
       else CreatedOk(w1, job, seen, replies[c1], replies[c1 + 1])
  }

  /**
   Exactly when a device's reconcile alters an ignored secret.  The first read fails (lookup l), so that the annotation is
   not seen; the region (call c) and the second read of the secret (c + 1) are answered; and then either labels or data
   differ and their write takes effect, or nothing differs, the BMC is new and gets created, and the patch that makes it
   the owner of a secret without one takes effect.
   */
  predicate AltersIgnored(w: World, job: Job, lookups: Replies, l: nat, replies: Replies, c: nat) {
    var n := job.device.name;
    && Serves(job) && !lookups[l].Done? && replies[c].Done? && replies[c + 1].Done?
    && if Overwritten(w.secrets, job) != w.secrets then !replies[c + 2].Refused?
       else n !in w.bmcs && replies[c + 2].Done? && OwnerOf(Get(w.secrets, n)) == None && !replies[c + 3].Refused?
  }

  class Importer {
    var w: World
    const in_: Inputs
    /**
     The answers to the reads whose failure the controller takes for "not there": the first read of a secret, the read
     of a BMC, and the lookup of a hostname.  For these, NotFound is an answer.
     */
    const lookups: Replies
    var nextLookup: nat
    /** The answers to all other calls, whose failure ends the pass. */
    const replies: Replies
    var calls: nat

    constructor (w: World, in_: Inputs, lookups: Replies, replies: Replies)
      ensures this.w == w && this.in_ == in_ && this.lookups == lookups && this.replies == replies
      ensures nextLookup == 0 && calls == 0
    {
      this.w := w;
      this.in_ := in_;
      this.lookups := lookups;
      this.nextLookup := 0;
      this.replies := replies;
      this.calls := 0;
    }

    // ---------- API calls ----------

    method Call() returns (reply: Reply)
      modifies `calls
      ensures calls == old(calls) + 1 && reply == replies[old(calls)]
    {
      reply := replies[calls];
      calls := calls + 1;
    }

    method Lookup() returns (answered: bool)
      modifies `nextLookup
      ensures nextLookup == old(nextLookup) + 1 && answered == lookups[old(nextLookup)].Done?
    {
      answered := lookups[nextLookup].Done?;
      nextLookup := nextLookup + 1;
    }

    /** A read of a secret. */
    method GetSecret(n: string) returns (secret: Option<Secret>)
      modifies `nextLookup
      ensures nextLookup == old(nextLookup) + 1
      ensures secret == if lookups[old(nextLookup)].Done? then Get(w.secrets, n) else None
    {
      var answered := Lookup();
      secret := if answered then Get(w.secrets, n) else None;
    }

    method GetBmc(n: string) returns (bmc: Option<Bmc>)
      modifies `nextLookup
      ensures nextLookup == old(nextLookup) + 1
      ensures bmc == if lookups[old(nextLookup)].Done? then Get(w.bmcs, n) else None
    {
      var answered := Lookup();
      bmc := if answered then Get(w.bmcs, n) else None;
    }

    /** `CreateOrUpdate`: reads once more, then creates, updates, or finds that nothing has to change. */
    method CreateOrUpdate(job: Job) returns (ok: bool)
      requires Works(job)
      modifies `w, `calls
      ensures old(calls) < calls && (ok <==> Answered(replies, old(calls), calls))
      ensures w == if replies[old(calls)].Done? && !replies[old(calls) + 1].Refused?
                   then old(w).(secrets := Overwritten(old(w).secrets, job)) else old(w)
      ensures ok ==> w == old(w).(secrets := Overwritten(old(w).secrets, job))
      ensures ok <==> SecretOk(old(w), job, false, replies[old(calls)], replies[old(calls) + 1])
      ensures ok ==> calls == old(calls) + SecretCalls(old(w), job, false)
    {
      ghost var c := calls;
      var read := Call();
      AnsweredOne(replies, c);
      if read != Done { return false; }
      var secret := Get(w.secrets, job.device.name);
      if secret.Some? && secret.value.labels == ManagedLabels(job) && secret.value.data == job.creds {
        assert Overwritten(w.secrets, job) == w.secrets;
        return true;
      }
      OverwrittenDiffers(w.secrets, job);
      var reply := Call();
      AnsweredOne(replies, c + 1);
      AnsweredParts(replies, c, c + 1, calls);
      if reply.Refused? { return false; }
      w := w.(secrets := Overwritten(w.secrets, job));
      return reply.Done?;
    }

    /** `patchBMCLabels`: a merge patch of the managed labels against the copy that was read. */
    method PatchBmcLabels(job: Job, bmc: Bmc) returns (ok: bool)
      requires Works(job) && Get(w.bmcs, job.device.name) == Some(bmc)
      modifies `w, `calls
      ensures calls == old(calls) + 1 && (ok <==> replies[old(calls)].Done?)
      ensures w == if replies[old(calls)].Refused? then old(w) else old(w).(bmcs := ServeBmc(old(w).bmcs, job))
    {
      var n, labels := job.device.name, bmc.labels + ManagedLabels(job);
      var reply := Call();
      if reply.Refused? { return false; }
      PatchRoundTrip(bmc.labels, labels);
      w := w.(bmcs := w.bmcs[n := w.bmcs[n].(labels := Apply(w.bmcs[n].labels, Diff(bmc.labels, labels)))]);
      return reply.Done?;
    }

    /** `createBmc`: an existing BMC is no error, but then the caller holds a copy that was never stored. */
    method CreateBmc(job: Job, hostname: Option<string>) returns (ok: bool, stored: bool)
      requires Works(job)
      modifies `w, `calls
      ensures calls == old(calls) + 1 && (ok <==> replies[old(calls)].Done?)
      ensures ok ==> (stored <==> job.device.name !in old(w).bmcs)
      ensures w == if replies[old(calls)].Refused? || job.device.name in old(w).bmcs then old(w)
                   else old(w).(bmcs := old(w).bmcs[job.device.name :=
                                  Bmc(SpecOf(job).(hostname := hostname), ManagedLabels(job))])
    {
      var reply := Call();
      if reply.Refused? { return false, false; }
      if job.device.name in w.bmcs { return reply.Done?, false; }
      w := w.(bmcs := w.bmcs[job.device.name := Bmc(SpecOf(job).(hostname := hostname), ManagedLabels(job))]);
      return reply.Done?, true;
    }

    /**
     `patchOwnerReference`: refused here when another controller owns the secret, and by the API server when the
     BMC copy was never stored and so has no uid.
     */
    method PatchOwnerReference(n: string, stored: bool) returns (ok: bool)
      modifies `w, `calls
      ensures old(calls) <= calls <= old(calls) + 1
      ensures ok <==> stored && Claimable(old(w).secrets, n) && Answered(replies, old(calls), calls)
      ensures ok <==> stored && Claimable(old(w).secrets, n) && replies[old(calls)].Done?
      ensures w == if stored && !replies[old(calls)].Refused? then old(w).(secrets := Claim(old(w).secrets, n)) else old(w)
    {
      if n in w.secrets && w.secrets[n].owner !in {None, Some(n)} { return false; }
      AnsweredOne(replies, calls);
      var reply := Call();
      if n !in w.secrets || !stored || reply.Refused? { return false; }
      w := w.(secrets := w.secrets[n := w.secrets[n].(owner := Some(n))]);
      return reply.Done?;
    }

    // ---------- one device ----------

    /**
     `reconcileBmcSecret`.  This step alters an ignored secret exactly when the first read fails, so that its annotation
     is not seen, its labels or data differ, the second read is answered, and the write takes effect.
     */
    method ReconcileBmcSecret(job: Job) returns (ok: bool, skipped: bool)
      requires Works(job)
      modifies `w, `nextLookup, `calls
      ensures nextLookup == old(nextLookup) + 1 && old(calls) <= calls && SpecsStay(old(w), w)
      ensures var served := old(w).(secrets := ServeSecret(old(w).secrets, job, lookups[old(nextLookup)].Done?));
              (w == old(w) || w == served) && (ok ==> w == served)
      ensures ok <==> Answered(replies, old(calls), calls)
      ensures ok ==> (skipped <==> lookups[old(nextLookup)].Done? && IsIgnored(Get(old(w).secrets, job.device.name)))
      ensures var seen := lookups[old(nextLookup)].Done? && IsIgnored(Get(old(w).secrets, job.device.name));
              && SecretStep(old(w), w, job, seen, replies[old(calls)], replies[old(calls) + 1])
              && (ok <==> SecretOk(old(w), job, seen, replies[old(calls)], replies[old(calls) + 1]))
              && (ok ==> calls == old(calls) + SecretCalls(old(w), job, seen))
    {
      var secret := GetSecret(job.device.name);
      if secret.Some? && Ignored(secret.value) { return true, true; }
      ok := CreateOrUpdate(job);
      skipped := false;
    }

    /** A BMC that was not found is created, and its secret claimed; the hostname is looked up first. */
    method CreateAndClaim(job: Job, skipped: bool) returns (ok: bool)
      requires Works(job)
      modifies `w, `nextLookup, `calls
      ensures nextLookup == old(nextLookup) + 1 && old(calls) < calls && SpecsStay(old(w), w)
      ensures Created(old(w), w, job, skipped, lookups[old(nextLookup)].Done?, replies[old(calls)], replies[old(calls) + 1])
      ensures ok <==> CreatedOk(old(w), job, skipped, replies[old(calls)], replies[old(calls) + 1])
      ensures ok ==> Answered(replies, old(calls), calls)
      ensures job.device.name !in old(w).bmcs && lookups[old(nextLookup)].Done? ==>
                && w in {old(w), WithBmc(old(w), job), Settled(old(w), job, skipped)}
                && (ok ==> w == Settled(old(w), job, skipped))
                && (ok <==> CanSettle(old(w), job, skipped) && Answered(replies, old(calls), calls))
    {
      var read := Lookup();
      var hostname := if read then job.device.hostname else None;
      assert read ==> SpecOf(job).(hostname := hostname) == SpecOf(job);
      var stored;
      ghost var c := calls;
      ok, stored := CreateBmc(job, hostname);
      AnsweredOne(replies, c);
      AnsweredOne(replies, c + 1);
      if ok && !skipped {
        ok := PatchOwnerReference(job.device.name, stored);
        AnsweredParts(replies, c, c + 1, calls);
      }
    }

    /** What is left to do once the secret is settled: patch the BMC, or create it and claim the secret. */
    method ReconcileBmc(job: Job, skipped: bool) returns (ok: bool)
      requires Works(job)
      modifies `w, `nextLookup, `calls
      ensures old(nextLookup) < nextLookup <= old(nextLookup) + 2 && old(calls) < calls && SpecsStay(old(w), w)
      ensures ok ==> Answered(replies, old(calls), calls)
      ensures if lookups[old(nextLookup)].Done? && job.device.name in old(w).bmcs
              then && w == (if replies[old(calls)].Refused? then old(w) else WithBmc(old(w), job))
                   && (ok <==> replies[old(calls)].Done?)
              else && Created(old(w), w, job, skipped, lookups[old(nextLookup) + 1].Done?, replies[old(calls)], replies[old(calls) + 1])
                   && (ok <==> CreatedOk(old(w), job, skipped, replies[old(calls)], replies[old(calls) + 1]))
      ensures Answered(lookups, old(nextLookup), nextLookup) ==>
                && w in {old(w), WithBmc(old(w), job), Settled(old(w), job, skipped)}
                && (ok ==> w == Settled(old(w), job, skipped))
                && (ok <==> CanSettle(old(w), job, skipped) && Answered(replies, old(calls), calls))
    {
      var bmc := GetBmc(job.device.name);
      if bmc.Some? {
        ok := PatchBmcLabels(job, bmc.value);
        return;
      }
      hide WithBmc, Settled, CanSettle, SpecsStay, Created, CreatedOk;
      ghost var l := nextLookup;
      ok := CreateAndClaim(job, skipped);
      AnsweredParts(lookups, l - 1, l, nextLookup);
    }

    /** The part of `reconcileDevice` after the region was read. */
    method ServeDevice(job: Job) returns (ok: bool)
      requires Serves(job) && 0 < calls && replies[calls - 1].Done?
      modifies `w, `nextLookup, `calls
      ensures old(nextLookup) <= nextLookup <= old(nextLookup) + 3 && old(calls) <= calls && SpecsStay(old(w), w)
      ensures ok ==> Answered(replies, old(calls), calls)
      ensures Answered(lookups, old(nextLookup), nextLookup) ==>
                && Between(old(w), w, job)
                && (ok ==> w == Serve(old(w), job))
                && (ok <==> CanServe(old(w), job) && Answered(replies, old(calls), calls))
      ensures IsIgnored(Get(old(w).secrets, job.device.name)) ==>
                (w.secrets != old(w).secrets <==> AltersIgnored(old(w), job, lookups, old(nextLookup), replies, old(calls) - 1))
      ensures Possible(old(w), w, [job])
      ensures DeviceStep(old(w), w, job, lookups, old(nextLookup), replies, old(calls) - 1)
      ensures ok <==> DeviceOk(old(w), job, lookups, old(nextLookup), replies, old(calls) - 1)
    {
      hide WithBmc, Settled, CanSettle, ManagedLabels, Overwritten, ServeSecret;
      hide SecretOk, Created, CreatedOk, BmcStep, Possible, AltersIgnored, SpecsStay, Between, CanServe, Serve, Ignored;
      ghost var l, c, w0 := nextLookup, calls - 1, w;
      var skipped;
      ok, skipped := ReconcileBmcSecret(job);
      ghost var seen := lookups[l].Done? && IsIgnored(Get(w0.secrets, job.device.name));
      SecretStepPossible(w0, w, job, seen, replies[c + 1], replies[c + 2]);
      if lookups[l].Done? { SecretBetween(w0, w, job); }
      if !ok {
        AnsweredOne(lookups, l);
        if IsIgnored(Get(w0.secrets, job.device.name)) { AlteredOrNot(w0, w, job, lookups, l, replies, c); }
        return;
      }
      ghost var w1, l1, c1 := w, nextLookup, calls;
      ok := ReconcileBmc(job, skipped);
      AnsweredParts(lookups, l, l1, nextLookup);
      AnsweredParts(replies, c + 1, c1, calls);
      SpecsStayBoth(w0, w1, w);
      if Answered(lookups, l, nextLookup) { DeviceServed(w0, w1, w, job, skipped); }
      ghost var found := lookups[l1].Done? && job.device.name in w1.bmcs;
      if found {
        PatchedIsStep(w1, w, job);
      } else {
        CreatedIsStep(w1, w, job, skipped, lookups[l1 + 1].Done?, replies[c1], replies[c1 + 1]);
      }
      BmcStepPossible(w0, w1, w, job);
      if IsIgnored(Get(w0.secrets, job.device.name)) {
        if found {
          AlteredThenPatched(w0, w1, w, job, lookups, l, replies, c);
        } else {
          AlteredThenCreated(w0, w1, w, job, lookups[l1 + 1].Done?, lookups, l, replies, c, c1);
        }
      }
    }

    /**
     `reconcileDevice`.  If the lookups are answered, with what there is or with NotFound, it does one step of the fold
     or stops inside it, and it succeeds exactly when the step can be done and no other call fails.  Whatever is answered,
     only the BMC and the secret of this device change, and only as `Possible` says; what is left, whether it succeeds, and
     when an ignored secret is altered, is stated exactly.
     */
    method ReconcileDevice(job: Job) returns (ok: bool)
      modifies `w, `nextLookup, `calls
      ensures old(nextLookup) <= nextLookup <= old(nextLookup) + 3 && old(calls) <= calls && SpecsStay(old(w), w)
      ensures ok ==> Answered(replies, old(calls), calls)
      ensures Answered(lookups, old(nextLookup), nextLookup) ==>
                && Between(old(w), w, job)
                && (ok ==> w == Serve(old(w), job))
                && (ok <==> CanServe(old(w), job) && Answered(replies, old(calls), calls))
      ensures IsIgnored(Get(old(w).secrets, job.device.name)) ==>
                (w.secrets != old(w).secrets <==> AltersIgnored(old(w), job, lookups, old(nextLookup), replies, old(calls)))
      ensures Possible(old(w), w, [job])
      ensures if Serves(job) && replies[old(calls)].Done?
              then DeviceStep(old(w), w, job, lookups, old(nextLookup), replies, old(calls))
              else w == old(w)
      ensures ok <==> || job.device.status != "active"
                      || (Serves(job) && replies[old(calls)].Done?
                          && DeviceOk(old(w), job, lookups, old(nextLookup), replies, old(calls)))
    {
      hide Overwritten, Possible, ServeSecret, ServeBmc, Claims, DeviceStep, DeviceOk;
      PossibleAtOnce(w, [job]);
      if job.device.status != "active" { return true; }
      if |Split(job.device.name)| != 2 { return false; }
      ghost var c := calls;
      var region := Call();
      AnsweredOne(replies, c);
      if region != Done || job.device.region.None? || job.device.oobIp.None? || job.creds.None? { return false; }
      ok := ServeDevice(job);
      AnsweredParts(replies, c, c + 1, calls);
    }

    // ---------- passes ----------

    /** One cluster: its devices are read and worked off. */
    method ReconcileCluster(creds: Option<Creds>, cluster: Cluster) returns (ok: bool)
      modifies `w, `nextLookup, `calls
      ensures old(nextLookup) <= nextLookup && old(calls) <= calls && SpecsStay(old(w), w)
      ensures ok ==> Answered(replies, old(calls), calls)
      ensures var jobs := DeviceJobs(creds, cluster, DevicesOf(in_, cluster));
              Answered(lookups, old(nextLookup), nextLookup) ==>
                && CutShort(old(w), w, jobs) && (ok ==> Completes(old(w), w, jobs))
                && (ok <==> CanImport(old(w), jobs) && Answered(replies, old(calls), calls))
      ensures Possible(old(w), w, DeviceJobs(creds, cluster, DevicesOf(in_, cluster)))
    {
      hide CanServe, Serve, Between, Possible, SpecsStay;
      var devices := DevicesOf(in_, cluster);
      ghost var jobs := DeviceJobs(creds, cluster, devices);
      CutAtOnce(w, jobs);
      PossibleAtOnce(w, jobs);
      SpecsStayAtOnce(w);
      var list := Call();
      if list != Done { return false; }
      ok := true;
      assert jobs[..0] == [];
      PossibleAtOnce(w, jobs[..0]);
      for i := 0 to |devices|
        invariant old(nextLookup) <= nextLookup && old(calls) <= calls && SpecsStay(old(w), w)
        invariant ok && Answered(replies, old(calls), calls)
        invariant Answered(lookups, old(nextLookup), nextLookup) ==> Completes(old(w), w, jobs[..i])
        invariant Possible(old(w), w, jobs[..i])
      {
        ghost var mid, l, c := w, nextLookup, calls;
        assert jobs[..i + 1] == jobs[..i] + [jobs[i]];
        ok := ReconcileDevice(Job(creds, cluster, devices[i]));
        AnsweredParts(lookups, old(nextLookup), l, nextLookup);
        AnsweredParts(replies, old(calls), c, calls);
        PossiblePart(old(w), mid, w, jobs[..i], [jobs[i]], jobs);
        SpecsStayBoth(old(w), mid, w);
        if Answered(lookups, old(nextLookup), nextLookup) { CutInOne(old(w), mid, w, jobs[..i], jobs[i], jobs); }
        if !ok { return; }
      }
      assert jobs[..|jobs|] == jobs;
      if Answered(lookups, old(nextLookup), nextLookup) { CutCompletely(old(w), w, jobs); }
    }

    /** `reconcileClusterSelection`: NetBox's service reports "no clusters" as an error, but no devices are none. */
    method ReconcileSelection(sel: Selector) returns (ok: bool)
      modifies `w, `nextLookup, `calls
      ensures old(nextLookup) <= nextLookup && old(calls) <= calls && SpecsStay(old(w), w)
      ensures ok ==> Answered(replies, old(calls), calls)
      ensures var jobs := SelectorJobs(in_, sel);
              Answered(lookups, old(nextLookup), nextLookup) ==>
                && CutShort(old(w), w, jobs) && (ok ==> Completes(old(w), w, jobs))
                && (ok <==> ClustersOf(in_, sel) != [] && CanImport(old(w), jobs) && Answered(replies, old(calls), calls))
      ensures Possible(old(w), w, SelectorJobs(in_, sel))
      ensures ok && Answered(lookups, old(nextLookup), nextLookup) ==> AllImported(in_, [sel], old(w), w)
    {
      hide CanServe, Serve, Between, Completes, Possible, SpecsStay, AllImported;
      var creds, clusters := CredsOf(in_, sel), ClustersOf(in_, sel);
      ghost var all := SelectorJobs(in_, sel);
      CutAtOnce(w, all);
      PossibleAtOnce(w, all);
      PossibleAtOnce(w, []);
      SpecsStayAtOnce(w);
      var list := Call();
      if list != Done || clusters == [] { return false; }
      ok := true;
      NothingToDo(w);
      for i := 0 to |clusters|
        invariant old(nextLookup) <= nextLookup && old(calls) <= calls && SpecsStay(old(w), w)
        invariant ok && Answered(replies, old(calls), calls)
        invariant Answered(lookups, old(nextLookup), nextLookup) ==>
                    Completes(old(w), w, ClusterJobs(in_, creds, clusters, i))
        invariant Possible(old(w), w, ClusterJobs(in_, creds, clusters, i))
      {
        ghost var done := ClusterJobs(in_, creds, clusters, i);
        ghost var more := DeviceJobs(creds, clusters[i], DevicesOf(in_, clusters[i]));
        ClusterPrefix(in_, creds, clusters, i + 1, |clusters|);
        ghost var mid, l, c := w, nextLookup, calls;
        ok := ReconcileCluster(creds, clusters[i]);
        AnsweredParts(lookups, old(nextLookup), l, nextLookup);
        AnsweredParts(replies, old(calls), c, calls);
        PossiblePart(old(w), mid, w, done, more, all);
        SpecsStayBoth(old(w), mid, w);
        if Answered(lookups, old(nextLookup), nextLookup) { PartDone(old(w), mid, w, done, more, all); }
        if !ok { return; }
      }
      if Answered(lookups, old(nextLookup), nextLookup) {
        CutCompletely(old(w), w, all);
        SelectorImports(in_, sel, old(w), w);
      }
    }

    /**
     The selector loop of `Reconcile`.  If the lookups are answered, the pass is the fold over all triples or a cut of it;
     and it completes exactly when no other call fails, no selector is without clusters, and every device can be done.
     Whatever is answered, each BMC and each secret is as some of the triples about it can leave it.
     */
    method ImportAll(sels: seq<Selector>) returns (ok: bool)
      modifies `w, `nextLookup, `calls
      ensures old(nextLookup) <= nextLookup && old(calls) <= calls && SpecsStay(old(w), w)
      ensures ok ==> Answered(replies, old(calls), calls)
      ensures var jobs := AllJobs(in_, sels, |sels|);
              Answered(lookups, old(nextLookup), nextLookup) ==>
                && CutShort(old(w), w, jobs) && (ok ==> Completes(old(w), w, jobs))
                && (ok <==> NoneEmpty(in_, sels, |sels|) && CanImport(old(w), jobs) && Answered(replies, old(calls), calls))
      ensures Possible(old(w), w, AllJobs(in_, sels, |sels|))
      ensures ok && Answered(lookups, old(nextLookup), nextLookup) ==> AllImported(in_, sels, old(w), w)
    {
      hide CanServe, Serve, Between, Completes, CutShort, ClustersOf, SelectorJobs, Possible, SpecsStay, AllImported;
      PossibleAtOnce(w, []);
      SpecsStayAtOnce(w);
      ghost var all := AllJobs(in_, sels, |sels|);
      ok := true;
      NothingToDo(w);
      for i := 0 to |sels|
        invariant old(nextLookup) <= nextLookup && old(calls) <= calls && SpecsStay(old(w), w)
        invariant ok && Answered(replies, old(calls), calls)
        invariant Answered(lookups, old(nextLookup), nextLookup) ==>
                    Completes(old(w), w, AllJobs(in_, sels, i)) && NoneEmpty(in_, sels, i)
        invariant Possible(old(w), w, AllJobs(in_, sels, i))
      {
        ghost var done, more := AllJobs(in_, sels, i), SelectorJobs(in_, sels[i]);
        SelectorPrefix(in_, sels, i + 1, |sels|);
        ghost var mid, l, c := w, nextLookup, calls;
        ok := ReconcileSelection(sels[i]);
        AnsweredParts(lookups, old(nextLookup), l, nextLookup);
        AnsweredParts(replies, old(calls), c, calls);
        PossiblePart(old(w), mid, w, done, more, all);
        SpecsStayBoth(old(w), mid, w);
        if Answered(lookups, old(nextLookup), nextLookup) { PartDone(old(w), mid, w, done, more, all); }
        if !ok { return; }
      }
      if Answered(lookups, old(nextLookup), nextLookup) {
        CutCompletely(old(w), w, all);
        CompletedImports(in_, sels, old(w), w);
      }
    }
  }

  lemma SecretBetween(w0: World, w1: World, job: Job)
    requires Serves(job) && w1 in {w0, w0.(secrets := ServeSecret(w0.secrets, job, true))}
    ensures Between(w0, w1, job)
  {
  }

  lemma SpecsStayAtOnce(w: World)
    ensures SpecsStay(w, w)
  {
  }

  lemma SpecsStayBoth(a: World, b: World, c: World)
    requires SpecsStay(a, b) && SpecsStay(b, c)
    ensures SpecsStay(a, c)
  {
  }

  lemma OverwrittenDiffers(secrets: map<string, Secret>, job: Job)
    requires Works(job)
    requires var secret := Get(secrets, job.device.name);
             !(secret.Some? && secret.value.labels == ManagedLabels(job) && secret.value.data == job.creds)
    ensures Overwritten(secrets, job) != secrets
  {
    hide ManagedLabels;
    assert job.device.name in Overwritten(secrets, job);
  }

  lemma NothingToDo(w: World)
    ensures Completes(w, w, [])
  {
  }

  /** One more part of a pass, complete or not. */
  lemma PartDone(before: World, mid: World, after: World, a: seq<Job>, b: seq<Job>, all: seq<Job>)
    requires Completes(before, mid, a) && CutShort(mid, after, b) && a + b <= all
    ensures CutShort(before, after, all)
    ensures Completes(mid, after, b) ==> Completes(before, after, a + b)
    ensures !CanImport(mid, b) ==> !CanImport(before, all)
  {
    CutInPart(before, after, a, b, all);
    if Completes(mid, after, b) { CompletesBoth(before, mid, after, a, b); }
    if !CanImport(mid, b) { CannotPart(before, a, b, all); }
  }

  /** The two halves of a device's reconcile make one step of the fold, or an intermediate state of it. */
  lemma DeviceServed(w0: World, w1: World, w2: World, job: Job, skipped: bool)
    requires Serves(job) && w1 == w0.(secrets := ServeSecret(w0.secrets, job, true))
    requires skipped == IsIgnored(Get(w0.secrets, job.device.name))
    requires w2 in {w1, WithBmc(w1, job), Settled(w1, job, skipped)}
    ensures Between(w0, w2, job) && Serve(w0, job) == Settled(w1, job, skipped)
    ensures CanServe(w0, job) <==> CanSettle(w1, job, skipped)
  {
  }

  // ---------- one device, whatever is answered ----------

  lemma SecretStepPossible(w0: World, w1: World, job: Job, seen: bool, read: Reply, write: Reply)
    requires Serves(job) && SecretStep(w0, w1, job, seen, read, write)
    ensures Possible(w0, w1, [job])
  {
    hide ManagedLabels;
    assert job in [job];
    forall n ensures PossibleAt(w0, w1, [job], n) {
      if About(job, n) && w1.secrets != w0.secrets {
        assert BodyFrom(Get(w0.secrets, n), Get(w1.secrets, n).value, job);
      }
    }
  }

  /** The BMC is patched, created or left, and the secret claimed or left. */
  predicate BmcStep(w1: World, w2: World, job: Job)
    requires Works(job)
  {
    var n := job.device.name;
    && (w2.bmcs in {w1.bmcs, ServeBmc(w1.bmcs, job)}
        || (n !in w1.bmcs && exists named :: w2.bmcs == w1.bmcs[n := Bmc(SpecSeen(job, named), ManagedLabels(job))]))
    && w2.secrets in {w1.secrets, Claim(w1.secrets, n)}
  }

  lemma BmcStepBmc(w1: World, w2: World, job: Job, n: string)
    requires Serves(job) && BmcStep(w1, w2, job)
    ensures BmcPossible(Get(w1.bmcs, n), Get(w2.bmcs, n), [job], n)
  {
    hide ManagedLabels;
    assert job in [job];
    if About(job, n) && w2.bmcs != w1.bmcs {
      assert LabelsFrom(Get(w1.bmcs, n), Get(w2.bmcs, n).value.labels, job);
      assert n !in w1.bmcs ==> SpecFrom(Get(w2.bmcs, n).value.spec, job);
    }
  }

  lemma BmcStepSecret(w1: World, w2: World, job: Job, n: string)
    requires Serves(job) && BmcStep(w1, w2, job)
    ensures SecretPossible(Get(w1.secrets, n), Get(w2.secrets, n), [job], n)
  {
    hide ManagedLabels;
    assert job in [job];
    if About(job, n) && w2.secrets != w1.secrets {
      assert BodyFrom(Get(w1.secrets, n), Get(w2.secrets, n).value, job);
    }
  }

  lemma BmcStepPossible(w0: World, w1: World, w2: World, job: Job)
    requires Serves(job) && Possible(w0, w1, [job]) && BmcStep(w1, w2, job)
    ensures Possible(w0, w2, [job])
  {
    hide BmcPossible, SecretPossible, BmcStep;
    forall n ensures PossibleAt(w1, w2, [job], n) {
      BmcStepBmc(w1, w2, job, n);
      BmcStepSecret(w1, w2, job, n);
    }
    PossibleBoth(w0, w1, w2, [job], [job]);
    PossibleAmong(w0, w2, [job] + [job], [job]);
  }

  lemma CreatedIsStep(w1: World, w2: World, job: Job, skipped: bool, named: bool, create: Reply, patch: Reply)
    requires Works(job) && Created(w1, w2, job, skipped, named, create, patch)
    ensures BmcStep(w1, w2, job)
  {
  }

  lemma PatchedIsStep(w1: World, w2: World, job: Job)
    requires Works(job) && w2 in {w1, WithBmc(w1, job)}
    ensures BmcStep(w1, w2, job) && w2.secrets == w1.secrets
  {
  }

  // ---------- the ignored secret ----------

  lemma ClaimedBody(secrets: map<string, Secret>, job: Job)
    requires Works(job) && job.device.name in secrets
    ensures var n := job.device.name;
            && (Overwritten(secrets, job) != secrets ==> Claim(Overwritten(secrets, job), n) != secrets)
            && (Claim(secrets, n) != secrets <==> secrets[n].owner == None)
  {
    hide ManagedLabels;
    var n, over := job.device.name, Overwritten(secrets, job);
    if over != secrets { assert over[n] != secrets[n]; }
    if Claim(over, n) == secrets { assert Claim(over, n)[n] == secrets[n]; }
    if secrets[n].owner == None { assert Claim(secrets, n)[n] != secrets[n]; }
    if secrets[n].owner == Some(n) { assert secrets[n := secrets[n].(owner := Some(n))] == secrets; }
  }

  lemma AlteredOrNot(w0: World, w1: World, job: Job, lookups: Replies, l: nat, replies: Replies, c: nat)
    requires Serves(job) && IsIgnored(Get(w0.secrets, job.device.name)) && replies[c].Done?
    requires SecretStep(w0, w1, job, lookups[l].Done?, replies[c + 1], replies[c + 2])
    requires !SecretOk(w0, job, lookups[l].Done?, replies[c + 1], replies[c + 2])
    ensures w1.secrets != w0.secrets <==> AltersIgnored(w0, job, lookups, l, replies, c)
  {
    hide Overwritten;
  }

  lemma AlteredThenPatched(w0: World, w1: World, w2: World, job: Job, lookups: Replies, l: nat, replies: Replies, c: nat)
    requires Serves(job) && IsIgnored(Get(w0.secrets, job.device.name)) && replies[c].Done?
    requires SecretStep(w0, w1, job, lookups[l].Done?, replies[c + 1], replies[c + 2])
    requires SecretOk(w0, job, lookups[l].Done?, replies[c + 1], replies[c + 2])
    requires job.device.name in w1.bmcs && w2.secrets == w1.secrets
    ensures w2.secrets != w0.secrets <==> AltersIgnored(w0, job, lookups, l, replies, c)
  {
    hide Overwritten;
  }

  lemma AlteredThenCreated(w0: World, w1: World, w2: World, job: Job, named: bool,
                           lookups: Replies, l: nat, replies: Replies, c: nat, c1: nat)
    requires Serves(job) && IsIgnored(Get(w0.secrets, job.device.name)) && replies[c].Done?
    requires SecretStep(w0, w1, job, lookups[l].Done?, replies[c + 1], replies[c + 2])
    requires SecretOk(w0, job, lookups[l].Done?, replies[c + 1], replies[c + 2])
    requires c1 == c + 1 + SecretCalls(w0, job, lookups[l].Done?)
    requires Created(w1, w2, job, lookups[l].Done?, named, replies[c1], replies[c1 + 1])
    ensures w2.secrets != w0.secrets <==> AltersIgnored(w0, job, lookups, l, replies, c)
  {
    ClaimedBody(w0.secrets, job);
    hide Overwritten, Claim, ManagedLabels;
  }
}
