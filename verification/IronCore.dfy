/**
 What passes of the ClusterImport controller leave behind in the BMC and BMCSecret resources: each pass is a fold
 over all (selector, cluster, device) triples, with fields the first triple decides and fields the last one decides.
 */
module IronCore {
  import opened Wrappers
  import opened DeviceNames
  import opened MergePatch

  const REDFISH := "Redfish"
  const REDFISH_PORT := 443
  const IGNORE_ANNOTATION := "argora.cloud.sap/ignore"

  /** The ten labels the controller manages, and all others. */
  datatype Label =
    | Region | Zone | ClusterName | ClusterType | DeviceName | NodeName | Bb | DeviceType | Role | Platform
    | OtherLabel(text: string)

  type Labels = map<Label, string>

  // ---------- inputs ----------

  datatype Creds = Creds(user: string, password: string)

  /**
   A NetBox device with what the controller looks up for it: the region of its site, its out-of-band address if
   it parses, and the DNS name of its remote board if there is one.
   */
  datatype Device = Device(
    name: string, status: string, site: string, kind: string, role: string, platform: string,
    region: Option<string>, oobIp: Option<string>, hostname: Option<string>)

  datatype Cluster = Cluster(id: int, name: string, kind: string)

  /** One (selector, cluster, device) triple; of the selector only the credentials it resolves to matter. */
  datatype Job = Job(creds: Option<Creds>, cluster: Cluster, device: Device)

  // ---------- resources ----------

  datatype BmcSpec = BmcSpec(ip: string, protocol: string, port: int, secretRef: string, hostname: Option<string>)

  datatype Bmc = Bmc(spec: BmcSpec, labels: Labels)

  /** `owner` is the name of the controlling BMC, or of another controller. */
  datatype Secret = Secret(labels: Labels, data: Option<Creds>, annotations: map<string, string>, owner: Option<string>)

  datatype World = World(bmcs: map<string, Bmc>, secrets: map<string, Secret>)

  predicate Ignored(secret: Secret) {
    IGNORE_ANNOTATION in secret.annotations && secret.annotations[IGNORE_ANNOTATION] == "true"
  }

  // ---------- credentials ----------

  /** A credentials text that is missing or empty is no credential. */
  function Usable(user: Option<string>, password: Option<string>): Option<Creds> {
    if user.Some? && password.Some? && user.value != "" && password.value != "" then Some(Creds(user.value, password.value))
    else None
  }

  function At(m: map<string, string>, k: string): Option<string> { if k in m then Some(m[k]) else None }

  /** `resolveBMCCredentials`: a selector with a reference uses that secret or fails, it never falls back. */
  function Resolve(ref: Option<string>, central: Creds, secrets: map<string, map<string, string>>): (r: Option<Creds>)
    ensures r.Some? ==> r.value.user != "" && r.value.password != ""
    ensures ref.Some? && ref.value !in secrets ==> r.None?
    ensures ref.Some? && r.Some? ==>
              At(secrets[ref.value], "bmcUser") == Some(r.value.user) && At(secrets[ref.value], "bmcPassword") == Some(r.value.password)
    ensures ref.None? ==> r == if central.user != "" && central.password != "" then Some(central) else None
    ensures ref.Some? && ref.value in secrets ==>
              (r.Some? <==> forall k | k in {"bmcUser", "bmcPassword"} :: k in secrets[ref.value] && secrets[ref.value][k] != "")
  {
    if ref.None? then Usable(Some(central.user), Some(central.password))
    else if ref.value !in secrets then None
    else Usable(At(secrets[ref.value], "bmcUser"), At(secrets[ref.value], "bmcPassword"))
  }

  // ---------- one device ----------

  predicate Active(job: Job) { job.device.status == "active" }

  /** Nothing in the inputs stands in the way. */
  predicate Works(job: Job) {
    && |Split(job.device.name)| == 2 && job.device.region.Some? && job.device.oobIp.Some? && job.creds.Some?
  }

  predicate Serves(job: Job) { Active(job) && Works(job) }

  function ManagedLabels(job: Job): (l: Labels)
    requires Works(job)
    ensures forall k :: k in l <==> !k.OtherLabel?
  {
    var d := job.device;
    map[Region := d.region.value, Zone := d.site,
        ClusterName := job.cluster.name, ClusterType := job.cluster.kind,
        DeviceName := d.name, NodeName := Split(d.name)[0], Bb := Split(d.name)[1],
        DeviceType := d.kind, Role := d.role, Platform := d.platform]
  }

  /** The node name and building block labels are the two dash-free parts of the device name, in this order. */
  lemma {:induction false} NameLabels(job: Job)
    requires Works(job)
    ensures var l := ManagedLabels(job);
            l[NodeName] + "-" + l[Bb] == l[DeviceName] == job.device.name && '-' !in l[NodeName] && '-' !in l[Bb]
  {
    var parts := Split(job.device.name);
    assert parts == [parts[0], parts[1]];
    SplitTwo(job.device.name, parts[0], parts[1]);
  }

  /** What each managed label says. */
  predicate Labelled(l: Labels, job: Job) {
    && (forall k | k in {Region, Zone, ClusterName, ClusterType, DeviceName, NodeName, Bb, DeviceType, Role, Platform} :: k in l)
    && Some(l[Region]) == job.device.region && l[Zone] == job.device.site
    && l[ClusterName] == job.cluster.name && l[ClusterType] == job.cluster.kind
    && l[DeviceName] == job.device.name == l[NodeName] + "-" + l[Bb] && '-' !in l[NodeName] && '-' !in l[Bb]
    && l[DeviceType] == job.device.kind && l[Role] == job.device.role && l[Platform] == job.device.platform
  }

  /** What the spec of a new BMC says. */
  predicate Specified(spec: BmcSpec, job: Job) {
    && Some(spec.ip) == job.device.oobIp && spec.protocol == "Redfish" && spec.port == 443
    && spec.secretRef == job.device.name && spec.hostname == job.device.hostname
  }

  lemma LabelsMeaning(job: Job)
    requires Works(job)
    ensures Labelled(ManagedLabels(job), job) && forall l: Labels :: Labelled(l + ManagedLabels(job), job)
  {
    NameLabels(job);
  }

  function SpecOf(job: Job): BmcSpec
    requires Works(job)
  {
    BmcSpec(job.device.oobIp.value, REDFISH, REDFISH_PORT, job.device.name, job.device.hostname)
  }

  /** `CreateOrUpdate`: labels and data are replaced as a whole, annotations and owner stay. */
  function Overwritten(secrets: map<string, Secret>, job: Job): map<string, Secret>
    requires Works(job)
  {
    var n := job.device.name;
    var was := if n in secrets then secrets[n] else Secret(map[], None, map[], None);
    secrets[n := was.(labels := ManagedLabels(job), data := job.creds)]
  }

  /** `reconcileBmcSecret`; `answered` tells whether the first read was answered, with the secret or with NotFound. */
  function ServeSecret(secrets: map<string, Secret>, job: Job, answered: bool): map<string, Secret>
    requires Works(job)
  {
    if answered && job.device.name in secrets && Ignored(secrets[job.device.name]) then secrets
    else Overwritten(secrets, job)
  }

  function ServeBmc(bmcs: map<string, Bmc>, job: Job): map<string, Bmc>
    requires Works(job)
  {
    var n := job.device.name;
    if n in bmcs then bmcs[n := bmcs[n].(labels := bmcs[n].labels + ManagedLabels(job))]
    else bmcs[n := Bmc(SpecOf(job), ManagedLabels(job))]
  }

  /** The BMC was just created and its secret is not an ignored one. */
  predicate Claims(w: World, job: Job) {
    var n := job.device.name;
    n !in w.bmcs && !(n in w.secrets && Ignored(w.secrets[n]))
  }

  /** A secret that another controller owns cannot be claimed. */
  predicate Claimable(secrets: map<string, Secret>, n: string) {
    n in secrets && secrets[n].owner in {None, Some(n)}
  }

  function Claim(secrets: map<string, Secret>, n: string): map<string, Secret> {
    if Claimable(secrets, n) then secrets[n := secrets[n].(owner := Some(n))] else secrets
  }

  /** `reconcileDevice` on a world where every call is answered and succeeds. */
  function Serve(w: World, job: Job): World {
    if !Serves(job) then w else
    var secrets := ServeSecret(w.secrets, job, true);
    World(ServeBmc(w.bmcs, job), if Claims(w, job) then Claim(secrets, job.device.name) else secrets)
  }

  /**
   What a reconcile needs to succeed: an active device has a name in two parts, a region, an out-of-band address and
   credentials, and if its BMC is new its secret is not owned by somebody else.
   */
  predicate CanServe(w: World, job: Job) {
    Active(job) ==>
      && Works(job)
      && (Claims(w, job) ==> Claimable(ServeSecret(w.secrets, job, true), job.device.name))
  }

  /** The states a device's reconcile can be cut short in. */
  predicate Between(w: World, after: World, job: Job) {
    || after == w
    || (Serves(job) && after == w.(secrets := ServeSecret(w.secrets, job, true)))
    || (Serves(job) && after == World(ServeBmc(w.bmcs, job), ServeSecret(w.secrets, job, true)))
    || after == Serve(w, job)
  }

  // ---------- passes ----------

  function Import(w: World, jobs: seq<Job>): World {
    if jobs == [] then w else Serve(Import(w, jobs[..|jobs| - 1]), jobs[|jobs| - 1])
  }

  /** What a pass needs to succeed: each reconcile can, in the world the ones before it leave. */
  predicate CanImport(w: World, jobs: seq<Job>) {
    jobs == [] ||
    (CanImport(w, jobs[..|jobs| - 1]) && CanServe(Import(w, jobs[..|jobs| - 1]), jobs[|jobs| - 1]))
  }

  predicate About(job: Job, n: string) { Serves(job) && job.device.name == n }

  /** The first and the last job that reaches the resources called n. */
  function FirstJob(jobs: seq<Job>, n: string): (r: Option<Job>)
    ensures r.Some? ==> About(r.value, n)
  {
    if jobs == [] then None
    else
      var r := FirstJob(jobs[..|jobs| - 1], n);
      if r.None? && About(jobs[|jobs| - 1], n) then Some(jobs[|jobs| - 1]) else r
  }

  function LastJob(jobs: seq<Job>, n: string): (r: Option<Job>)
    ensures r.Some? ==> About(r.value, n)
    ensures r.Some? <==> FirstJob(jobs, n).Some?
  {
    if jobs == [] then None
    else if About(jobs[|jobs| - 1], n) then Some(jobs[|jobs| - 1])
    else LastJob(jobs[..|jobs| - 1], n)
  }

  /** FirstJob and LastJob find what their names say. */
  lemma {:induction false} FirstAndLast(jobs: seq<Job>, n: string)
    ensures match FirstJob(jobs, n)
            case None => forall i | 0 <= i < |jobs| :: !About(jobs[i], n)
            case Some(job) => exists i :: 0 <= i < |jobs| && jobs[i] == job && forall j | 0 <= j < i :: !About(jobs[j], n)
    ensures match LastJob(jobs, n)
            case None => true
            case Some(job) => exists i :: 0 <= i < |jobs| && jobs[i] == job && forall j | i < j < |jobs| :: !About(jobs[j], n)
  {
    if jobs != [] {
      var init := jobs[..|jobs| - 1];
      FirstAndLast(init, n);
      assert forall i | 0 <= i < |init| :: init[i] == jobs[i];
      assert jobs[|jobs| - 1] == jobs[|init|];
    }
  }

  function Get<T>(m: map<string, T>, n: string): Option<T> { if n in m then Some(m[n]) else None }

  /**
   A BMC after a pass: it exists if it did before or some job is about it; its spec is the one it had before, else
   that of its first job; the managed labels are those of its last job, and all other labels are as before.
   */
  function BmcAfter(before: Option<Bmc>, jobs: seq<Job>, n: string): Option<Bmc> {
    var first, last := FirstJob(jobs, n), LastJob(jobs, n);
    if last.None? then before
    else if before.None? then Some(Bmc(SpecOf(first.value), ManagedLabels(last.value)))
    else Some(Bmc(before.value.spec, before.value.labels + ManagedLabels(last.value)))
  }

  lemma LabelsOverwritten(l: Labels, a: Labels, b: Labels)
    requires a.Keys == b.Keys
    ensures (l + a) + b == l + b && a + b == b
  {
  }

  lemma ServeBmcAt(before: Option<Bmc>, bmcs: map<string, Bmc>, jobs: seq<Job>, job: Job, n: string)
    requires Get(bmcs, n) == BmcAfter(before, jobs, n) && Serves(job)
    ensures Get(ServeBmc(bmcs, job), n) == BmcAfter(before, jobs + [job], n)
  {
    assert (jobs + [job])[..|jobs|] == jobs;
    var last := LastJob(jobs, n);
    if About(job, n) && last.Some? {
      var l := if before.Some? then before.value.labels else map[];
      assert ManagedLabels(last.value).Keys == ManagedLabels(job).Keys;
      LabelsOverwritten(l, ManagedLabels(last.value), ManagedLabels(job));
    }
  }

  lemma {:induction false} BmcMeaning(w: World, jobs: seq<Job>, n: string)
    ensures Get(Import(w, jobs).bmcs, n) == BmcAfter(Get(w.bmcs, n), jobs, n)
  {
    if jobs != [] {
      var init, job := jobs[..|jobs| - 1], jobs[|jobs| - 1];
      BmcMeaning(w, init, n);
      assert jobs == init + [job];
      if Serves(job) {
        ServeBmcAt(Get(w.bmcs, n), Import(w, init).bmcs, init, job, n);
      }
    }
  }

  predicate IsIgnored(secret: Option<Secret>) { secret.Some? && Ignored(secret.value) }

  /**
   A BMCSecret after a pass: an ignored one is untouched in every field; any other has labels and data of its last
   job, annotations as before, and an owner that is set only when its BMC is created in this pass and nobody owns it.
   */
  function SecretAfter(before: Option<Secret>, bmcBefore: bool, jobs: seq<Job>, n: string): Option<Secret> {
    var last := LastJob(jobs, n);
    if IsIgnored(before) || last.None? then before
    else
      var annotations, owner :=
        if before.Some? then before.value.annotations else map[], if before.Some? then before.value.owner else None;
      Some(Secret(ManagedLabels(last.value), last.value.creds, annotations,
                  if !bmcBefore && owner.None? then Some(n) else owner))
  }

  lemma ServeSecretAt(secrets: map<string, Secret>, job: Job, n: string)
    requires Serves(job)
    ensures Get(ServeSecret(secrets, job, true), n) ==
            if job.device.name != n || IsIgnored(Get(secrets, n)) then Get(secrets, n)
            else Get(Overwritten(secrets, job), n)
  {
  }

  lemma {:induction false} SecretMeaning(w: World, jobs: seq<Job>, n: string)
    ensures Get(Import(w, jobs).secrets, n) == SecretAfter(Get(w.secrets, n), n in w.bmcs, jobs, n)
  {
    if jobs != [] {
      var init, job := jobs[..|jobs| - 1], jobs[|jobs| - 1];
      SecretMeaning(w, init, n);
      BmcMeaning(w, init, n);
      if About(job, n) {
        ServeSecretAt(Import(w, init).secrets, job, n);
      }
    }
  }

  /**
   What a completed pass means for the resources called n: the first job decides the spec of a new BMC, the last one
   the ten managed labels, no other label and no spec of an existing BMC changes, and an ignored secret stays as it is.
   */
  lemma {:induction false} PassMeaning(w: World, jobs: seq<Job>, n: string)
    ensures var r := Import(w, jobs);
            && (n in w.bmcs ==> n in r.bmcs && r.bmcs[n].spec == w.bmcs[n].spec)
            && (n in w.bmcs ==> forall k: Label | k.OtherLabel? :: SameAt(r.bmcs[n].labels, w.bmcs[n].labels, k))
            && (n !in w.bmcs && n in r.bmcs ==>
                  FirstJob(jobs, n).Some? && r.bmcs[n].spec == SpecOf(FirstJob(jobs, n).value))
            && (LastJob(jobs, n).Some? ==>
                  n in r.bmcs && forall k: Label | !k.OtherLabel? ::
                    SameAt(r.bmcs[n].labels, ManagedLabels(LastJob(jobs, n).value), k))
            && (n in w.secrets && Ignored(w.secrets[n]) ==> n in r.secrets && r.secrets[n] == w.secrets[n])
  {
    BmcMeaning(w, jobs, n);
    SecretMeaning(w, jobs, n);
  }

  // ---------- what a completed pass leaves of each device ----------

  /** The BMC of the last job of its name, with the spec of before, or of the first job if it is new. */
  predicate BmcThere(before: Option<Bmc>, after: Option<Bmc>, first: Job, last: Job) {
    && after.Some? && Labelled(after.value.labels, last)
    && if before.Some? then after.value.spec == before.value.spec else Specified(after.value.spec, first)
  }

  /**
   The secret of the last job of its name: untouched if it is to be ignored, else with that job's labels and credentials, and
   owned by the BMC if that is new and nobody owned it.
   */
  predicate SecretThere(before: Option<Secret>, after: Option<Secret>, bmcBefore: bool, last: Job) {
    after.Some? &&
    if before.Some? && At(before.value.annotations, "argora.cloud.sap/ignore") == Some("true") then after == before
    else
      && Labelled(after.value.labels, last) && after.value.data.Some? && after.value.data == last.creds
      && after.value.annotations == (if before.Some? then before.value.annotations else map[])
      && after.value.owner == if !bmcBefore && OwnerOf(before).None? then Some(last.device.name) else OwnerOf(before)
  }

  predicate Imported(w: World, after: World, jobs: seq<Job>, n: string) {
    && FirstJob(jobs, n).Some? && LastJob(jobs, n).Some?
    && BmcThere(Get(w.bmcs, n), Get(after.bmcs, n), FirstJob(jobs, n).value, LastJob(jobs, n).value)
    && SecretThere(Get(w.secrets, n), Get(after.secrets, n), n in w.bmcs, LastJob(jobs, n).value)
  }

  lemma BmcIsThere(before: Option<Bmc>, jobs: seq<Job>, n: string)
    requires FirstJob(jobs, n).Some? && LastJob(jobs, n).Some?
    ensures BmcThere(before, BmcAfter(before, jobs, n), FirstJob(jobs, n).value, LastJob(jobs, n).value)
  {
    LabelsMeaning(LastJob(jobs, n).value);
    hide ManagedLabels, Labelled, FirstJob, LastJob;
  }

  lemma SecretIsThere(before: Option<Secret>, bmcBefore: bool, jobs: seq<Job>, n: string)
    requires LastJob(jobs, n).Some?
    ensures SecretThere(before, SecretAfter(before, bmcBefore, jobs, n), bmcBefore, LastJob(jobs, n).value)
  {
    var last := LastJob(jobs, n).value;
    LabelsMeaning(last);
    assert Labelled(ManagedLabels(last), last) by { assert map[] + ManagedLabels(last) == ManagedLabels(last); }
    hide ManagedLabels, Labelled, LastJob;
  }

  lemma ActiveIsServed(w: World, jobs: seq<Job>, job: Job)
    requires CanImport(w, jobs) && job in jobs && job.device.status == "active"
    ensures FirstJob(jobs, job.device.name).Some? && LastJob(jobs, job.device.name).Some?
  {
    var i :| 0 <= i < |jobs| && jobs[i] == job;
    CanImportMeaning(w, jobs);
    FirstAndLast(jobs, job.device.name);
    hide FirstJob, LastJob, CanImport, OwnerAllows;
    assert Acceptable(w, jobs[i]) && About(jobs[i], job.device.name);
  }

  /** After a completed pass every active device has its BMC and its secret, and what they say. */
  lemma DevicesImported(w: World, jobs: seq<Job>, job: Job)
    requires CanImport(w, jobs) && job in jobs && job.device.status == "active"
    ensures Imported(w, Import(w, jobs), jobs, job.device.name)
  {
    var n := job.device.name;
    hide *;
    ActiveIsServed(w, jobs, job);
    BmcMeaning(w, jobs, n);
    SecretMeaning(w, jobs, n);
    BmcIsThere(Get(w.bmcs, n), jobs, n);
    SecretIsThere(Get(w.secrets, n), n in w.bmcs, jobs, n);
    ImportedBy(w, Import(w, jobs), jobs, n);
  }

  lemma ImportedBy(w: World, after: World, jobs: seq<Job>, n: string)
    requires FirstJob(jobs, n).Some? && LastJob(jobs, n).Some?
    requires BmcThere(Get(w.bmcs, n), Get(after.bmcs, n), FirstJob(jobs, n).value, LastJob(jobs, n).value)
    requires SecretThere(Get(w.secrets, n), Get(after.secrets, n), n in w.bmcs, LastJob(jobs, n).value)
    ensures Imported(w, after, jobs, n)
  {
    hide BmcThere, SecretThere, FirstJob, LastJob;
  }

  // ---------- interrupted passes ----------

  predicate CutAt(w: World, after: World, jobs: seq<Job>, k: nat)
    requires k <= |jobs|
  {
    after == Import(w, jobs[..k]) || (k < |jobs| && Between(Import(w, jobs[..k]), after, jobs[k]))
  }

  /** A pass ended somewhere: after some job, or inside the work on one. */
  ghost predicate CutShort(w: World, after: World, jobs: seq<Job>) {
    exists k: nat :: k <= |jobs| && CutAt(w, after, jobs, k)
  }

  /** A secret but for its owner. */
  function Body(secret: Option<Secret>): Option<Secret> {
    if secret.Some? then Some(secret.value.(owner := None)) else None
  }

  function OwnerOf(secret: Option<Secret>): Option<string> { if secret.Some? then secret.value.owner else None }

  lemma {:induction false} PrefixJobs(jobs: seq<Job>, k: nat, n: string)
    requires k <= |jobs|
    ensures FirstJob(jobs[..k], n).Some? ==> FirstJob(jobs, n) == FirstJob(jobs[..k], n)
    decreases |jobs|
  {
    if k < |jobs| {
      var init := jobs[..|jobs| - 1];
      assert init[..k] == jobs[..k];
      PrefixJobs(init, k, n);
    } else {
      assert jobs[..k] == jobs;
    }
  }

  lemma BmcAbsorbs(before: Option<Bmc>, jobs: seq<Job>, k: nat, n: string)
    requires k <= |jobs|
    ensures BmcAfter(BmcAfter(before, jobs[..k], n), jobs, n) == BmcAfter(before, jobs, n)
  {
    PrefixJobs(jobs, k, n);
    var some, all := LastJob(jobs[..k], n), LastJob(jobs, n);
    if some.Some? {
      var l := if before.Some? then before.value.labels else map[];
      LabelsOverwritten(l, ManagedLabels(some.value), ManagedLabels(all.value));
    }
  }

  lemma SecretAbsorbs(before: Option<Secret>, now: Option<Secret>, bmc: bool, bmc': bool, jobs: seq<Job>, k: nat, n: string)
    requires k <= |jobs| && Body(now) == Body(SecretAfter(before, bmc, jobs[..k], n))
    ensures Body(SecretAfter(now, bmc', jobs, n)) == Body(SecretAfter(before, bmc, jobs, n))
  {
    PrefixJobs(jobs, k, n);
  }

  lemma BetweenAt(w: World, after: World, job: Job, n: string)
    requires Between(w, after, job)
    ensures Get(after.bmcs, n) in {Get(w.bmcs, n), Get(Serve(w, job).bmcs, n)}
    ensures Body(Get(after.secrets, n)) in {Body(Get(w.secrets, n)), Body(Get(Serve(w, job).secrets, n))}
  {
  }

  lemma OwnerLost(before: Option<Secret>, now: Option<Secret>, bmc: bool, bmc': bool, jobs: seq<Job>, k: nat, n: string)
    requires k <= |jobs| && Body(now) == Body(SecretAfter(before, bmc, jobs[..k], n))
    requires LastJob(jobs, n).Some? && !IsIgnored(before)
    ensures OwnerOf(SecretAfter(now, bmc', jobs, n)) == None <==> bmc' && OwnerOf(now) == None
  {
    assert !IsIgnored(now);
  }

  /** Where a cut pass stood with the BMC and with the secret called n. */
  lemma CutAtMeaning(w: World, after: World, jobs: seq<Job>, k: nat, n: string) returns (i: nat, j: nat)
    requires k <= |jobs| && CutAt(w, after, jobs, k)
    ensures i <= |jobs| && Get(after.bmcs, n) == BmcAfter(Get(w.bmcs, n), jobs[..i], n)
    ensures j <= |jobs| && Body(Get(after.secrets, n)) == Body(SecretAfter(Get(w.secrets, n), n in w.bmcs, jobs[..j], n))
  {
    i, j := k, k;
    BmcMeaning(w, jobs[..k], n);
    SecretMeaning(w, jobs[..k], n);
    if k < |jobs| && after != Import(w, jobs[..k]) {
      var mid := Import(w, jobs[..k]);
      assert jobs[..k + 1][..k] == jobs[..k];
      BetweenAt(mid, after, jobs[k], n);
      BmcMeaning(w, jobs[..k + 1], n);
      SecretMeaning(w, jobs[..k + 1], n);
      if Get(after.bmcs, n) != Get(mid.bmcs, n) { i := k + 1; }
      if Body(Get(after.secrets, n)) != Body(Get(mid.secrets, n)) { j := k + 1; }
    }
  }

  predicate SameButOwner(a: World, b: World, n: string) {
    Get(a.bmcs, n) == Get(b.bmcs, n) && Body(Get(a.secrets, n)) == Body(Get(b.secrets, n))
  }

  /**
   A pass over the same inputs after one that was cut short ends like a single uninterrupted pass, in the BMC and in
   the secret but for its owner.  The owner is missing at the end exactly when the cut pass left the BMC without it.
   */
  lemma RetryMeaning(w: World, after: World, jobs: seq<Job>, n: string)
    requires CutShort(w, after, jobs)
    ensures SameButOwner(Import(after, jobs), Import(w, jobs), n)
    ensures LastJob(jobs, n).Some? && !IsIgnored(Get(w.secrets, n)) ==>
              (OwnerOf(Get(Import(after, jobs).secrets, n)) == None <==>
               n in after.bmcs && OwnerOf(Get(after.secrets, n)) == None)
  {
    var k: nat :| k <= |jobs| && CutAt(w, after, jobs, k);
    var i, j := CutAtMeaning(w, after, jobs, k, n);
    BmcMeaning(w, jobs, n);
    BmcMeaning(after, jobs, n);
    BmcAbsorbs(Get(w.bmcs, n), jobs, i, n);
    SecretMeaning(w, jobs, n);
    SecretMeaning(after, jobs, n);
    SecretAbsorbs(Get(w.secrets, n), Get(after.secrets, n), n in w.bmcs, n in after.bmcs, jobs, j, n);
    if LastJob(jobs, n).Some? && !IsIgnored(Get(w.secrets, n)) {
      OwnerLost(Get(w.secrets, n), Get(after.secrets, n), n in w.bmcs, n in after.bmcs, jobs, j, n);
    }
  }

  /** Any number of cut passes, then a completed one: as one uninterrupted pass, but for owners. */
  lemma {:induction false} InterruptionsOnlyLoseOwners(runs: seq<World>, jobs: seq<Job>, n: string)
    requires |runs| > 0 && forall i | 0 <= i < |runs| - 1 :: CutShort(runs[i], runs[i + 1], jobs)
    ensures SameButOwner(Import(runs[|runs| - 1], jobs), Import(runs[0], jobs), n)
  {
    if |runs| > 1 {
      var front := runs[..|runs| - 1];
      InterruptionsOnlyLoseOwners(front, jobs, n);
      assert CutShort(runs[|runs| - 2], runs[|runs| - 1], jobs);
      RetryMeaning(runs[|runs| - 2], runs[|runs| - 1], jobs, n);
    }
  }

  // ---------- what no run changes ----------

  /** Existing BMCs keep spec and foreign labels; ignored secrets keep everything. */
  ghost predicate Keeps(w: World, after: World, n: string) {
    && (n in w.bmcs ==>
          && n in after.bmcs && after.bmcs[n].spec == w.bmcs[n].spec
          && forall k: Label | k.OtherLabel? :: SameAt(after.bmcs[n].labels, w.bmcs[n].labels, k))
    && (n in w.secrets && Ignored(w.secrets[n]) ==> n in after.secrets && after.secrets[n] == w.secrets[n])
  }

  lemma BetweenKeeps(w: World, after: World, job: Job, n: string)
    requires Between(w, after, job)
    ensures Keeps(w, after, n)
  {
  }

  lemma CutKeeps(w: World, after: World, jobs: seq<Job>, n: string)
    requires CutShort(w, after, jobs)
    ensures Keeps(w, after, n)
  {
    var k: nat :| k <= |jobs| && CutAt(w, after, jobs, k);
    PassMeaning(w, jobs[..k], n);
    if after != Import(w, jobs[..k]) { BetweenKeeps(Import(w, jobs[..k]), after, jobs[k], n); }
  }

  /** Over passes on whatever inputs, complete or cut short: what an existing BMC and an ignored secret keep. */
  lemma {:induction false} RunsKeep(runs: seq<World>, inputs: seq<seq<Job>>, n: string)
    requires |runs| == |inputs| + 1 && forall i | 0 <= i < |inputs| :: CutShort(runs[i], runs[i + 1], inputs[i])
    ensures Keeps(runs[0], runs[|inputs|], n)
  {
    if inputs != [] {
      var m := |inputs| - 1;
      RunsKeep(runs[..m + 1], inputs[..m], n);
      assert CutShort(runs[m], runs[m + 1], inputs[m]);
      CutKeeps(runs[m], runs[m + 1], inputs[m], n);
    }
  }

  // ---------- passes in parts ----------

  lemma {:induction false} ImportAppend(w: World, a: seq<Job>, b: seq<Job>)
    ensures Import(w, a + b) == Import(Import(w, a), b)
    decreases |b|
  {
    if b == [] {
      assert a + b == a;
    } else {
      assert (a + b)[..|a + b| - 1] == a + b[..|b| - 1];
      ImportAppend(w, a, b[..|b| - 1]);
    }
  }

  /** A pass cut short inside its second part. */
  lemma CutInPart(w: World, after: World, a: seq<Job>, b: seq<Job>, all: seq<Job>)
    requires a + b <= all && CutShort(Import(w, a), after, b)
    ensures CutShort(w, after, all)
  {
    var k: nat :| k <= |b| && CutAt(Import(w, a), after, b, k);
    assert all[..|a| + k] == a + b[..k];
    ImportAppend(w, a, b[..k]);
    assert k < |b| ==> all[|a| + k] == b[k];
    assert CutAt(w, after, all, |a| + k);
  }

  lemma {:induction false} CanImportAppend(w: World, a: seq<Job>, b: seq<Job>)
    ensures CanImport(w, a + b) <==> CanImport(w, a) && CanImport(Import(w, a), b)
    decreases |b|
  {
    if b == [] {
      assert a + b == a;
    } else {
      assert (a + b)[..|a + b| - 1] == a + b[..|b| - 1];
      CanImportAppend(w, a, b[..|b| - 1]);
      ImportAppend(w, a, b[..|b| - 1]);
    }
  }

  /** A pass whose second part cannot be done cannot be done. */
  lemma CannotPart(w: World, a: seq<Job>, b: seq<Job>, all: seq<Job>)
    requires a + b <= all && !CanImport(Import(w, a), b)
    ensures !CanImport(w, all)
  {
    CanImportAppend(w, a, b);
    CanImportAppend(w, a + b, all[|a + b|..]);
    assert a + b + all[|a + b|..] == all;
  }

  /** A secret that a new BMC called n would have to claim is owned by nobody else. */
  predicate OwnerAllows(w: World, n: string) {
    n !in w.bmcs && n in w.secrets && !Ignored(w.secrets[n]) ==> w.secrets[n].owner in {None, Some(n)}
  }

  lemma FirstCanServe(w: World, jobs: seq<Job>, job: Job)
    requires Serves(job) && LastJob(jobs, job.device.name).None?
    ensures CanServe(Import(w, jobs), job) <==> OwnerAllows(w, job.device.name)
  {
    var n := job.device.name;
    BmcMeaning(w, jobs, n);
    SecretMeaning(w, jobs, n);
    assert Get(Import(w, jobs).bmcs, n) == Get(w.bmcs, n) && Get(Import(w, jobs).secrets, n) == Get(w.secrets, n);
    assert n in w.secrets <==> Get(w.secrets, n).Some?;
  }

  lemma LaterCanServe(w: World, jobs: seq<Job>, job: Job)
    requires Serves(job) && LastJob(jobs, job.device.name).Some?
    ensures CanServe(Import(w, jobs), job)
  {
    BmcMeaning(w, jobs, job.device.name);
    assert Get(Import(w, jobs).bmcs, job.device.name).Some?;
  }

  /** What one job contributes to the pass's conditions. */
  predicate Acceptable(w: World, job: Job) { Active(job) ==> Works(job) && OwnerAllows(w, job.device.name) }

  /**
   What a pass needs, device by device: every active one works, and one whose BMC is new has a secret that is ignored,
   or new, or owned by nobody or by a BMC of this name.
   */
  lemma {:induction false} CanImportMeaning(w: World, jobs: seq<Job>)
    ensures CanImport(w, jobs) <==> forall i | 0 <= i < |jobs| :: Acceptable(w, jobs[i])
  {
    if jobs != [] {
      var init, job := jobs[..|jobs| - 1], jobs[|jobs| - 1];
      CanImportMeaning(w, init);
      assert forall i | 0 <= i < |init| :: init[i] == jobs[i];
      assert CanImport(w, init) ==> (CanServe(Import(w, init), job) <==> Acceptable(w, job)) by {
        if CanImport(w, init) && Serves(job) {
          if LastJob(init, job.device.name).None? {
            FirstCanServe(w, init, job);
          } else {
            LaterCanServe(w, init, job);
            FirstAndLast(init, job.device.name);
          }
        }
      }
    }
  }
}
