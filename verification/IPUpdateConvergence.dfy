/**
 Reconciles of the IPUpdate controller without failures and without interference: they end, and two of them
 reach a state that further reconciles leave alone.
 */
module IPUpdateConvergence {
  import opened Wrappers
  import opened Decimal
  import opened Netbox
  import opened MergePatch
  import opened IPUpdate
  import opened IPUpdateSafety
  import opened IPUpdateRecords

  /** All remaining calls answered without an error of the network. */
  function Finish(s: State): (end: State)
    ensures end.pc.Idle?
    decreases Rank(s.pc)
  {
    if s.pc.Idle? then s
    else
      CallsRunOut(s, Done);
      Finish(Call(s, Done))
  }

  function Reconcile(w: World, n: string): World { Finish(State(w, GetObject(n), {})).w }

  /** A clean reconcile is a run of the machine, and makes at most nine calls. */
  lemma {:induction false} FinishIsRun(s: State) returns (acts: seq<Action>)
    ensures |acts| <= Rank(s.pc) && forall i | 0 <= i < |acts| :: acts[i] == Answer(Done)
    ensures Run(s, acts) == Finish(s)
    decreases Rank(s.pc)
  {
    if s.pc.Idle? {
      acts := [];
    } else {
      CallsRunOut(s, Done);
      var rest := FinishIsRun(Call(s, Done));
      acts := [Answer(Done)] + rest;
      RunAppend(s, [Answer(Done)], rest);
      assert [Answer(Done)][..0] == [];
      assert Run(s, [Answer(Done)]) == Call(s, Done);
    }
  }

  lemma {:induction false} IdleStays(s: State, acts: seq<Action>)
    requires s.pc.Idle? && forall i | 0 <= i < |acts| :: acts[i] == Answer(Done)
    ensures Run(s, acts) == s
  {
    if acts != [] { IdleStays(s, acts[..|acts| - 1]); }
  }

  /** The converse of FinishIsRun: a run of answered calls that has ended is the clean reconcile. */
  lemma {:induction false} RunIsFinish(s: State, acts: seq<Action>)
    requires Run(s, acts).pc.Idle? && forall i | 0 <= i < |acts| :: acts[i] == Answer(Done)
    ensures Run(s, acts) == Finish(s)
    decreases |acts|
  {
    hide Call;
    if s.pc.Idle? {
      IdleStays(s, acts);
    } else {
      assert acts != [];
      assert acts == [Answer(Done)] + acts[1..];
      RunAppend(s, [Answer(Done)], acts[1..]);
      assert [Answer(Done)][..0] == [];
      assert Run(s, [Answer(Done)]) == Call(s, Done);
      CallsRunOut(s, Done);
      RunIsFinish(Call(s, Done), acts[1..]);
    }
  }

  lemma CallIgnoresFacts(w: World, pc: Pc, facts: set<Fact>, other: set<Fact>, r: Reply)
    ensures var s, t := Call(State(w, pc, facts), r), Call(State(w, pc, other), r); s.w == t.w && s.pc == t.pc
  {
  }

  /** The history has no influence on what is done. */
  lemma {:induction false} FinishIgnoresFacts(w: World, pc: Pc, facts: set<Fact>, other: set<Fact>)
    ensures Finish(State(w, pc, facts)).w == Finish(State(w, pc, other)).w
    decreases Rank(pc)
  {
    hide Call;
    if !pc.Idle? {
      var s, t := State(w, pc, facts), State(w, pc, other);
      CallIgnoresFacts(w, pc, facts, other, Done);
      CallsRunOut(s, Done);
      CallsRunOut(t, Done);
      var s', t' := Call(s, Done), Call(t, Done);
      FinishIgnoresFacts(s'.w, s'.pc, s'.facts, t'.facts);
    }
  }

  /** A reconcile of n whose calls are all answered, with nobody acting in between, is the clean reconcile. */
  lemma UndisturbedIsClean(s: State, n: string, acts: seq<Action>)
    requires s.pc.Idle? && forall i | 0 <= i < |acts| :: acts[i] == Answer(Done)
    requires Run(Step(s, Begin(n)), acts).pc.Idle?
    ensures Run(Step(s, Begin(n)), acts).w == Reconcile(s.w, n)
  {
    RunIsFinish(Step(s, Begin(n)), acts);
    FinishIgnoresFacts(s.w, GetObject(n), s.facts, {});
  }

  // ---------- the steady situation ----------

  ghost predicate InventoryConsistent(w: World) {
    && (forall i | i in w.devices :: w.devices[i].id == i)
    && (forall x, y | x in w.ifaces && y in w.ifaces && x.id == y.id :: x == y)
  }

  /** The object exists, has a usable address, and its target can be resolved to `iface` on `dev`. */
  ghost predicate Resolvable(w: World, n: string, dev: Device, iface: Interface) {
    && n in w.objs && !w.objs[n].deleting && GetPrefix(w.objs[n].spec).Some?
    && n in w.bmcOf && GetDeviceByName(w.devices, w.bmcOf[n]) == Some(dev)
    && BestLag(InterfacesOf(w.ifaces, dev.id)) == Some(iface)
    && InventoryConsistent(w) && IdsAllocated(w) && w.nextIp < MAX_INT
    && !LookedUpIn(w, n).ManyFound?
  }

  function LookedUpIn(w: World, n: string): Found
    requires n in w.objs
  {
    GetIPAddressByAddress(w.ips, KeyOf(w.objs[n]))
  }

  lemma {:induction false} DeviceOfMember(ifaces: seq<Interface>, x: Interface)
    requires x in ifaces && forall y | y in ifaces && y.id == x.id :: y == x
    ensures DeviceOf(ifaces, x.id) == x.device
  {
    var front, last := ifaces[..|ifaces| - 1], ifaces[|ifaces| - 1];
    if last.id != x.id {
      assert ifaces == front + [last];
      DeviceOfMember(front, x);
    }
  }

  lemma TargetDevice(w: World, n: string, dev: Device, iface: Interface)
    requires Resolvable(w, n, dev, iface)
    ensures iface in w.ifaces && iface.device == dev.id && DeviceOf(w.ifaces, iface.id) == dev.id
    ensures dev.id in w.devices && w.devices[dev.id] == dev
  {
    BestLagMeaning(InterfacesOf(w.ifaces, dev.id));
    DeviceOfMember(w.ifaces, iface);
  }

  // ---------- what one clean reconcile does ----------

  function SetAnn(w: World, n: string, ann: Annotations): World
    requires n in w.objs
  {
    w.(objs := w.objs[n := w.objs[n].(ann := ann)])
  }

  function WithPrimary(w: World, dev: Device, id: Id): World {
    if dev.primary4 == id then w else w.(devices := w.devices[dev.id := dev.(primary4 := id)])
  }

  function Synced(w: World, n: string, dev: Device, iface: Interface, id: Id): World
    requires n in w.objs
  {
    SetAnn(WithPrimary(w, dev, id), n, WithMetadata(w.objs[n].ann, dev, iface))
  }

  /** The whole effect of a clean reconcile of an object that has the finalizer, in one expression. */
  function PassResult(w: World, n: string, dev: Device, iface: Interface): World
    requires Resolvable(w, n, dev, iface)
  {
    var o := w.objs[n];
    match LookedUpIn(w, n)
    case OneFound(id, rec) =>
      if rec.iface != iface.id then SetAnn(w, n, WithConflict(o.ann, "interface")) else Synced(w, n, dev, iface, id)
    case NoneFound => Synced(Insert(w, NewRecord(o, dev, iface, VrfFor(w, o))), n, dev, iface, w.nextIp)
    case ManyFound => w
  }

  lemma PatchStored(w: World, n: string, ann: Annotations)
    requires n in w.objs && !w.objs[n].deleting
    ensures PatchAnnotations(w, n, w.objs[n].ann, ann) == SetAnn(w, n, ann)
  {
    PatchRoundTrip(w.objs[n].ann, ann);
  }

  lemma FinishStep(s: State, s': State)
    requires !s.pc.Idle? && s' == Call(s, Done)
    ensures Finish(s) == Finish(s')
    ensures s'.pc.Idle? ==> Finish(s) == s'
  {
  }

  lemma FinishMetadata(w: World, n: string, dev: Device, iface: Interface, facts: set<Fact>)
    requires n in w.objs && !w.objs[n].deleting
    ensures Finish(State(w, PatchMetadata(n, w.objs[n], dev, iface), facts)).w
            == SetAnn(w, n, WithMetadata(w.objs[n].ann, dev, iface))
  {
    PatchStored(w, n, WithMetadata(w.objs[n].ann, dev, iface));
    var s := State(w, PatchMetadata(n, w.objs[n], dev, iface), facts);
    FinishStep(s, Call(s, Done));
  }

  lemma FinishPrimary(w: World, n: string, o: Obj, dev: Device, iface: Interface, id: Id, facts: set<Fact>)
    requires dev.id in w.devices && dev.primary4 != id
    ensures Finish(State(w, SetPrimary(n, o, dev, iface, id), facts))
            == Finish(State(WithPrimary(w, dev, id), PatchMetadata(n, o, dev, iface), facts))
  {
    var s := State(w, SetPrimary(n, o, dev, iface, id), facts);
    var s' := State(WithPrimary(w, dev, id), PatchMetadata(n, o, dev, iface), facts);
    assert Call(s, Done) == s';
    FinishStep(s, s');
  }

  /** From a settled address on: the primary IP, then the annotations. */
  lemma FinishSynced(w: World, n: string, dev: Device, iface: Interface, id: Id, facts: set<Fact>)
    requires n in w.objs && !w.objs[n].deleting && dev.id in w.devices
    ensures Finish(State(w, AfterAddress(n, w.objs[n], dev, iface, id), facts)).w == Synced(w, n, dev, iface, id)
  {
    FinishMetadata(WithPrimary(w, dev, id), n, dev, iface, facts);
    if dev.primary4 != id {
      FinishPrimary(w, n, w.objs[n], dev, iface, id, facts);
    }
  }

  lemma FinishConflict(w: World, n: string, kind: string, facts: set<Fact>)
    requires n in w.objs && !w.objs[n].deleting
    ensures Finish(State(w, PatchConflict(n, w.objs[n], kind), facts)).w == SetAnn(w, n, WithConflict(w.objs[n].ann, kind))
  {
    PatchStored(w, n, WithConflict(w.objs[n].ann, kind));
    var s := State(w, PatchConflict(n, w.objs[n], kind), facts);
    assert Finish(s) == Call(s, Done);
  }

  lemma FinishInsert(w: World, n: string, dev: Device, iface: Interface, vrf: int)
    requires Resolvable(w, n, dev, iface) && dev.id in w.devices
    ensures Finish(State(w, CreateRecord(n, w.objs[n], dev, iface, vrf), {})).w
            == Synced(Insert(w, NewRecord(w.objs[n], dev, iface, vrf)), n, dev, iface, w.nextIp)
  {
    hide GetDeviceByName, BestLag, InterfacesOf, InventoryConsistent, NewRecord, AfterAddress, Synced;
    var s := State(w, CreateRecord(n, w.objs[n], dev, iface, vrf), {});
    var s' := Call(s, Done);
    FinishStep(s, s');
    FinishSynced(Insert(w, NewRecord(w.objs[n], dev, iface, vrf)), n, dev, iface, w.nextIp, s'.facts);
  }

  lemma FinishCreate(w: World, n: string, dev: Device, iface: Interface)
    requires Resolvable(w, n, dev, iface) && dev.id in w.devices
    ensures var o := w.objs[n];
            Finish(State(w, GetVrf(n, o, dev, iface), {})).w
            == Synced(Insert(w, NewRecord(o, dev, iface, VrfFor(w, o))), n, dev, iface, w.nextIp)
  {
    var o := w.objs[n];
    FinishInsert(w, n, dev, iface, VrfFor(w, o));
    FinishStep(State(w, GetVrf(n, o, dev, iface), {}), State(w, CreateRecord(n, o, dev, iface, VrfFor(w, o)), {}));
  }

  lemma FinishFromLookup(w: World, n: string, dev: Device, iface: Interface)
    requires Resolvable(w, n, dev, iface)
    ensures Finish(State(w, FindRecord(n, w.objs[n], dev, iface), {})).w == PassResult(w, n, dev, iface)
  {
    TargetDevice(w, n, dev, iface);
    var o := w.objs[n];
    var s := State(w, FindRecord(n, o, dev, iface), {});
    var s' := Call(s, Done);
    assert Finish(s) == Finish(s');
    match LookedUpIn(w, n) {
      case NoneFound => FinishCreate(w, n, dev, iface);
      case OneFound(id, rec) =>
        if rec.iface != iface.id {
          FinishConflict(w, n, "interface", {});
        } else {
          FinishSynced(w, n, dev, iface, id, s'.facts);
        }
      case ManyFound =>
    }
  }

  lemma AfterInterfaces(w: World, n: string, o: Obj, dev: Device, iface: Interface)
    requires BestLag(InterfacesOf(w.ifaces, dev.id)) == Some(iface)
    ensures Finish(State(w, GetInterfaces(n, o, dev), {})) == Finish(State(w, FindRecord(n, o, dev, iface), {}))
  {
    hide BestLag, InterfacesOf, Finish;
    FinishStep(State(w, GetInterfaces(n, o, dev), {}), State(w, FindRecord(n, o, dev, iface), {}));
  }

  lemma AfterDevice(w: World, n: string, o: Obj, name: string, dev: Device)
    requires GetDeviceByName(w.devices, name) == Some(dev)
    ensures Finish(State(w, GetDevice(n, o, name), {})) == Finish(State(w, GetInterfaces(n, o, dev), {}))
  {
    hide GetDeviceByName, Finish;
    FinishStep(State(w, GetDevice(n, o, name), {}), State(w, GetInterfaces(n, o, dev), {}));
  }

  lemma AfterName(w: World, n: string, o: Obj)
    requires n in w.bmcOf
    ensures Finish(State(w, FindDeviceName(n, o), {})) == Finish(State(w, GetDevice(n, o, w.bmcOf[n]), {}))
  {
    hide Finish;
    FinishStep(State(w, FindDeviceName(n, o), {}), State(w, GetDevice(n, o, w.bmcOf[n]), {}));
  }

  lemma AfterObject(w: World, n: string)
    requires n in w.objs && !w.objs[n].deleting && GetPrefix(w.objs[n].spec).Some? && Ours in w.objs[n].finalizers
    ensures Finish(State(w, GetObject(n), {})) == Finish(State(w, FindDeviceName(n, w.objs[n]), {}))
  {
    hide Finish;
    FinishStep(State(w, GetObject(n), {}), State(w, FindDeviceName(n, w.objs[n]), {}));
  }

  lemma TargetResolved(w: World, n: string, o: Obj, dev: Device, iface: Interface)
    requires n in w.bmcOf && GetDeviceByName(w.devices, w.bmcOf[n]) == Some(dev)
    requires BestLag(InterfacesOf(w.ifaces, dev.id)) == Some(iface)
    ensures Finish(State(w, FindDeviceName(n, o), {})) == Finish(State(w, FindRecord(n, o, dev, iface), {}))
  {
    AfterName(w, n, o);
    AfterDevice(w, n, o, w.bmcOf[n], dev);
    AfterInterfaces(w, n, o, dev, iface);
  }

  /** An object with the finalizer: three reads resolve the target, then the address is looked up. */
  lemma ReconcileIsPass(w: World, n: string, dev: Device, iface: Interface)
    requires Resolvable(w, n, dev, iface) && Ours in w.objs[n].finalizers
    ensures Reconcile(w, n) == PassResult(w, n, dev, iface)
  {
    AfterObject(w, n);
    TargetResolved(w, n, w.objs[n], dev, iface);
    FinishFromLookup(w, n, dev, iface);
  }

  /** An object without it: the reconcile adds the finalizer and does nothing else. */
  lemma ReconcileAddsFinalizer(w: World, n: string)
    requires n in w.objs && !w.objs[n].deleting && GetPrefix(w.objs[n].spec).Some? && Ours !in w.objs[n].finalizers
    ensures Reconcile(w, n) == w.(objs := w.objs[n := w.objs[n].(finalizers := w.objs[n].finalizers + [Ours])])
  {
    var s0 := State(w, GetObject(n), {});
    var s1 := State(w, AddFinalizer(n, w.objs[n]), {});
    assert Call(s0, Done) == s1 && Finish(s0) == Finish(s1);
    assert Finish(s1) == Call(s1, Done);
  }

  // ---------- the goal ----------

  /** The record of the object's address is on the target interface, is the device's primary IP, and is what the annotations name. */
  ghost predicate InSync(w: World, n: string, dev: Device, iface: Interface) {
    && n in w.objs && Ours in w.objs[n].finalizers
    && LookedUpIn(w, n).OneFound? && LookedUpIn(w, n).rec.iface == iface.id
    && dev.id in w.devices && w.devices[dev.id].primary4 == LookedUpIn(w, n).id
    && Names(w.objs[n].ann, dev.id, iface.id)
  }

  /** The address sits elsewhere: the conflict is on the object. */
  ghost predicate InConflict(w: World, n: string, iface: Interface) {
    && n in w.objs && Ours in w.objs[n].finalizers
    && LookedUpIn(w, n).OneFound? && LookedUpIn(w, n).rec.iface != iface.id
    && NamesConflict(w.objs[n].ann, w.objs[n].ann, "interface")
  }

  predicate NetboxUnchanged(w: World, w': World) {
    w'.ips == w.ips && w'.nextIp == w.nextIp && w'.devices == w.devices && w'.ifaces == w.ifaces
  }

  lemma MetadataMeaning(ann: Annotations, dev: Device, iface: Interface)
    ensures Names(WithMetadata(ann, dev, iface), dev.id, iface.id) && OthersKept(ann, WithMetadata(ann, dev, iface))
    ensures Names(ann, dev.id, iface.id) ==> WithMetadata(ann, dev, iface) == ann
  {
  }

  lemma ConflictMeaning(ann: Annotations, kind: string)
    ensures NamesConflict(ann, WithConflict(ann, kind), kind) && OthersKept(ann, WithConflict(ann, kind))
    ensures NamesConflict(ann, ann, kind) ==> WithConflict(ann, kind) == ann
  {
  }

  /** The record a reconcile creates: the object's address on the target, the device's tenant, the one VRF, else the global one. */
  function Needed(w: World, o: Obj, dev: Device, iface: Interface): IpRecord
    requires GetPrefix(o.spec).Some?
  {
    var c := GetPrefix(o.spec).value;
    IpRecord(c, iface.id, dev.tenant, if c in w.vrfs && |w.vrfs[c]| == 1 then w.vrfs[c][0] else 0)
  }

  /**
   Everything that reconciles of an object change on the way to the goal.  The object has the finalizer, and its annotations
   name target or conflict; with a conflict that is all.  Otherwise its record is there, created if there was none, and is
   the primary IP of the device.
   */
  ghost predicate GoalReached(w: World, w': World, n: string, dev: Device, iface: Interface)
    requires n in w.objs && n in w'.objs && GetPrefix(w.objs[n].spec).Some?
  {
    var o, o', f := w.objs[n], w'.objs[n], LookedUpIn(w, n);
    && w' == w.(objs := w.objs[n := o'], devices := w'.devices, ips := w'.ips, nextIp := w'.nextIp)
    && o' == o.(finalizers := if Ours in o.finalizers then o.finalizers else o.finalizers + [Ours], ann := o'.ann)
    && OthersKept(o.ann, o'.ann)
    && if f.OneFound? && f.rec.iface != iface.id then NetboxUnchanged(w, w') && NamesConflict(o.ann, o'.ann, "interface")
       else
         var id := if f.OneFound? then f.id else w.nextIp;
         && Names(o'.ann, dev.id, iface.id)
         && w'.devices == w.devices[dev.id := dev.(primary4 := id)]
         && w'.ips == (if f.OneFound? then w.ips else w.ips[id := Needed(w, o, dev, iface)])
         && w'.nextIp == (if f.OneFound? then w.nextIp else w.nextIp + 1)
  }

  lemma SyncedReaches(w: World, n: string, dev: Device, iface: Interface, id: Id)
    requires n in w.objs && dev.id in w.devices && w.devices[dev.id] == dev
    ensures var w' := Synced(w, n, dev, iface, id);
            && n in w'.objs && var ann := w'.objs[n].ann;
               && w' == w.(objs := w.objs[n := w.objs[n].(ann := ann)], devices := w.devices[dev.id := dev.(primary4 := id)])
               && Names(ann, dev.id, iface.id) && OthersKept(w.objs[n].ann, ann)
  {
    MetadataMeaning(w.objs[n].ann, dev, iface);
    hide WithMetadata, Names, OthersKept;
    if dev.primary4 == id { assert w.devices == w.devices[dev.id := dev]; }
  }

  /** A pass over an object with the finalizer does this, and nothing else. */
  lemma PassMeaning(w: World, n: string, dev: Device, iface: Interface)
    requires Resolvable(w, n, dev, iface) && Ours in w.objs[n].finalizers
    ensures n in PassResult(w, n, dev, iface).objs && GoalReached(w, PassResult(w, n, dev, iface), n, dev, iface)
  {
    TargetDevice(w, n, dev, iface);
    var o, f := w.objs[n], LookedUpIn(w, n);
    hide WithMetadata, WithConflict, Names, NamesConflict, OthersKept, Synced, Resolvable, LookedUpIn;
    if f.NoneFound? {
      assert Needed(w, o, dev, iface) == NewRecord(o, dev, iface, VrfFor(w, o));
      SyncedReaches(Insert(w, Needed(w, o, dev, iface)), n, dev, iface, w.nextIp);
    } else if f.rec.iface == iface.id {
      SyncedReaches(w, n, dev, iface, f.id);
    } else {
      ConflictMeaning(o.ann, "interface");
    }
  }

  lemma InsertedFound(w: World, rec: IpRecord)
    requires IdsAllocated(w) && w.nextIp < MAX_INT && GetIPAddressByAddress(w.ips, rec.cidr).NoneFound?
    ensures GetIPAddressByAddress(Insert(w, rec).ips, rec.cidr) == OneFound(w.nextIp, rec)
  {
    NoneMatch(w.ips, rec.cidr);
    var ips' := Insert(w, rec).ips;
    assert forall id | id in ips' && ips'[id].cidr == rec.cidr :: id == w.nextIp;
    assert Matching(ips', rec.cidr) == {w.nextIp};
    LookupExact(ips', rec.cidr, w.nextIp);
  }

  lemma SyncedIsInSync(w: World, n: string, dev: Device, iface: Interface, id: Id)
    requires n in w.objs && Ours in w.objs[n].finalizers && dev.id in w.devices && w.devices[dev.id] == dev
    requires LookedUpIn(w, n).OneFound? && LookedUpIn(w, n).id == id && LookedUpIn(w, n).rec.iface == iface.id
    ensures InSync(Synced(w, n, dev, iface, id), n, dev, iface)
  {
    MetadataMeaning(w.objs[n].ann, dev, iface);
  }

  lemma CreatedFound(w: World, n: string, dev: Device, iface: Interface)
    requires Resolvable(w, n, dev, iface) && LookedUpIn(w, n).NoneFound?
    ensures var rec := NewRecord(w.objs[n], dev, iface, VrfFor(w, w.objs[n]));
            LookedUpIn(Insert(w, rec), n) == OneFound(w.nextIp, rec)
  {
    InsertedFound(w, NewRecord(w.objs[n], dev, iface, VrfFor(w, w.objs[n])));
  }

  /** One pass over an object with the finalizer reaches the goal: sync, or the conflict with NetBox untouched. */
  lemma PassReachesGoal(w: World, n: string, dev: Device, iface: Interface)
    requires Resolvable(w, n, dev, iface) && Ours in w.objs[n].finalizers
    ensures var w', f := PassResult(w, n, dev, iface), LookedUpIn(w, n);
            if f.OneFound? && f.rec.iface != iface.id then InConflict(w', n, iface) && NetboxUnchanged(w, w')
            else InSync(w', n, dev, iface)
  {
    TargetDevice(w, n, dev, iface);
    var f := LookedUpIn(w, n);
    if f.NoneFound? {
      CreatedFound(w, n, dev, iface);
      SyncedIsInSync(Insert(w, NewRecord(w.objs[n], dev, iface, VrfFor(w, w.objs[n]))), n, dev, iface, w.nextIp);
    } else if f.rec.iface == iface.id {
      SyncedIsInSync(w, n, dev, iface, f.id);
    }
  }

  /** A change of the primary IP does not change which device a name finds. */
  lemma SameDeviceByName(devices: map<Id, Device>, name: string, dev: Device, id: int)
    requires GetDeviceByName(devices, name) == Some(dev) && forall i | i in devices :: devices[i].id == i
    ensures GetDeviceByName(devices[dev.id := dev.(primary4 := id)], name) == Some(dev.(primary4 := id))
  {
    var devices' := devices[dev.id := dev.(primary4 := id)];
    assert NamedDevices(devices, name) == {dev.id};
    assert NamedDevices(devices', name) == NamedDevices(devices, name);
    assert |NamedDevices(devices', name)| == 1;
  }

  lemma SyncedResolvable(w: World, n: string, dev: Device, iface: Interface, id: Id)
    requires Resolvable(w, n, dev, iface)
    ensures Resolvable(Synced(w, n, dev, iface, id), n, dev.(primary4 := id), iface)
    ensures Synced(w, n, dev, iface, id).devices == w.devices[dev.id := dev.(primary4 := id)]
  {
    TargetDevice(w, n, dev, iface);
    SameDeviceByName(w.devices, w.bmcOf[n], dev, id);
    if dev.primary4 == id { assert w.devices == w.devices[dev.id := dev]; }
  }

  lemma InsertResolvable(w: World, n: string, dev: Device, iface: Interface)
    requires Resolvable(w, n, dev, iface) && LookedUpIn(w, n).NoneFound? && w.nextIp + 1 < MAX_INT
    ensures Resolvable(Insert(w, NewRecord(w.objs[n], dev, iface, VrfFor(w, w.objs[n]))), n, dev, iface)
  {
    CreatedFound(w, n, dev, iface);
  }

  /** After a pass the target still resolves, to the same interface of the same device. */
  lemma PassKeepsResolvable(w: World, n: string, dev: Device, iface: Interface)
    requires Resolvable(w, n, dev, iface) && w.nextIp + 1 < MAX_INT
    ensures var w' := PassResult(w, n, dev, iface);
            dev.id in w'.devices && Resolvable(w', n, w'.devices[dev.id], iface) && w'.devices[dev.id].id == dev.id
  {
    TargetDevice(w, n, dev, iface);
    var f := LookedUpIn(w, n);
    if f.NoneFound? {
      InsertResolvable(w, n, dev, iface);
      SyncedResolvable(Insert(w, NewRecord(w.objs[n], dev, iface, VrfFor(w, w.objs[n]))), n, dev, iface, w.nextIp);
    } else if f.rec.iface == iface.id {
      SyncedResolvable(w, n, dev, iface, f.id);
    }
  }

  lemma GoalIsFixed(w: World, n: string, dev: Device, iface: Interface)
    requires Resolvable(w, n, dev, iface) && (InSync(w, n, dev, iface) || InConflict(w, n, iface))
    ensures Reconcile(w, n) == w
  {
    ReconcileIsPass(w, n, dev, iface);
    TargetDevice(w, n, dev, iface);
    MetadataMeaning(w.objs[n].ann, dev, iface);
    ConflictMeaning(w.objs[n].ann, "interface");
    hide WithMetadata, WithConflict, Names, NamesConflict;
    assert w.objs == w.objs[n := w.objs[n].(ann := w.objs[n].ann)];
  }

  lemma GoalWithUpdatedDevice(w: World, n: string, dev: Device, dev': Device, iface: Interface)
    requires InSync(w, n, dev, iface) && dev'.id == dev.id
    ensures InSync(w, n, dev', iface)
  {
  }

  /** One more reconcile after a pass changes nothing. */
  lemma PassThenFixed(w: World, n: string, dev: Device, iface: Interface)
    requires Resolvable(w, n, dev, iface) && Ours in w.objs[n].finalizers && w.nextIp + 1 < MAX_INT
    ensures Reconcile(Reconcile(w, n), n) == Reconcile(w, n)
  {
    ReconcileIsPass(w, n, dev, iface);
    var w' := PassResult(w, n, dev, iface);
    PassReachesGoal(w, n, dev, iface);
    PassKeepsResolvable(w, n, dev, iface);
    var dev' := w'.devices[dev.id];
    if InSync(w', n, dev, iface) { GoalWithUpdatedDevice(w', n, dev, dev', iface); }
    GoalIsFixed(w', n, dev', iface);
  }

  lemma FinalizerThenGoal(w: World, w1: World, w2: World, n: string, dev: Device, iface: Interface)
    requires n in w.objs && n in w2.objs && GetPrefix(w.objs[n].spec).Some? && Ours !in w.objs[n].finalizers
    requires w1 == w.(objs := w.objs[n := w.objs[n].(finalizers := w.objs[n].finalizers + [Ours])])
    requires GoalReached(w1, w2, n, dev, iface)
    ensures GoalReached(w, w2, n, dev, iface)
  {
    hide Names, NamesConflict, OthersKept;
    var o1 := w1.objs[n];
    assert o1.finalizers[|o1.finalizers| - 1] == Ours;
  }

  /**
   Convergence: from any state in which the target resolves and the address is not ambiguous, two clean reconciles reach
   the goal - in sync, or, when the one existing record is on another interface, that conflict on the object with NetBox
   untouched - with nothing else changed, and every later reconcile changes nothing.
   */
  lemma Converges(w: World, n: string, dev: Device, iface: Interface)
    requires Resolvable(w, n, dev, iface) && w.nextIp + 1 < MAX_INT
    ensures var w2, f := Reconcile(Reconcile(w, n), n), LookedUpIn(w, n);
            && (if f.OneFound? && f.rec.iface != iface.id then InConflict(w2, n, iface) && NetboxUnchanged(w, w2)
                else InSync(w2, n, dev, iface))
            && GoalReached(w, w2, n, dev, iface)
            && Reconcile(w2, n) == w2
  {
    hide Reconcile, Names, NamesConflict, OthersKept;
    if Ours in w.objs[n].finalizers {
      ReconcileIsPass(w, n, dev, iface);
      PassReachesGoal(w, n, dev, iface);
      PassMeaning(w, n, dev, iface);
      PassThenFixed(w, n, dev, iface);
    } else {
      ReconcileAddsFinalizer(w, n);
      var w1 := Reconcile(w, n);
      assert Resolvable(w1, n, dev, iface) && Ours in w1.objs[n].finalizers;
      ReconcileIsPass(w1, n, dev, iface);
      PassReachesGoal(w1, n, dev, iface);
      PassMeaning(w1, n, dev, iface);
      PassThenFixed(w1, n, dev, iface);
      FinalizerThenGoal(w, w1, Reconcile(w1, n), n, dev, iface);
    }
  }

  // ---------- clean deletion ----------

  /** NetBox after the deletion of an object: the one record of its address goes if the annotations name its interface. */
  function RecordGone(w: World, n: string): World
    requires n in w.objs
  {
    var f := LookedUpIn(w, n);
    if f.OneFound? && AnnotatedInterface(w.objs[n].ann) == Some(f.rec.iface) then w.(ips := w.ips - {f.id}) else w
  }

  /**
   One clean reconcile of an object marked for deletion, whatever its finalizers: unless its address is ambiguous, it
   deletes the one record of its address exactly when the annotations name that record's interface, and takes the
   finalizer off if it is there.  The object goes when that was the last one.
   */
  lemma CleanDeletion(w: World, n: string)
    requires n in w.objs && w.objs[n].deleting && GetPrefix(w.objs[n].spec).Some?
    ensures var o := w.objs[n];
            Reconcile(w, n) ==
              if LookedUpIn(w, n).ManyFound? then w
              else if Ours in o.finalizers then StoreObj(RecordGone(w, n), n, o.(finalizers := Without(o.finalizers)))
              else RecordGone(w, n)
  {
    var o, f := w.objs[n], LookedUpIn(w, n);
    var s1 := State(w, FindForDelete(n, o), {});
    FinishStep(State(w, GetObject(n), {}), s1);
    if f.OneFound? && AnnotatedInterface(o.ann) == Some(f.rec.iface) {
      FinishFound(w, n);
    } else {
      FinishKept(w, n);
    }
  }

  /** The record of this address is on the interface that both annotations, each one readable, say it was given. */
  predicate AnnotatedHere(ann: Annotations, iface: Id) {
    && DeviceKey in ann && Atoi(ann[DeviceKey]).Some?
    && InterfaceKey in ann && Atoi(ann[InterfaceKey]) == Some(iface)
  }

  lemma AnnotationMeaning(ann: Annotations, iface: Id)
    ensures AnnotatedInterface(ann) == Some(iface) <==> AnnotatedHere(ann, iface)
  {
  }

  /**
   What such a reconcile leaves, store by store: of the records all but the one that is found and annotated; of the object
   everything but the finalizer, or nothing if it had no other one; and all else.
   */
  lemma DeletionMeaning(w: World, n: string)
    requires n in w.objs && w.objs[n].deleting && GetPrefix(w.objs[n].spec).Some?
    ensures var o, f, w' := w.objs[n], LookedUpIn(w, n), Reconcile(w, n);
            && w' == w.(objs := w'.objs, ips := w'.ips)
            && w'.ips == (if f.OneFound? && AnnotatedHere(o.ann, f.rec.iface) then w.ips - {f.id} else w.ips)
            && (forall m | m in w.objs && m != n :: m in w'.objs && w'.objs[m] == w.objs[m])
            && w'.objs.Keys <= w.objs.Keys
            && (n !in w'.objs <==> !f.ManyFound? && Ours in o.finalizers && forall x | x in o.finalizers :: x == Ours)
            && (n in w'.objs ==> w'.objs[n] == o.(finalizers := if f.ManyFound? then o.finalizers else Without(o.finalizers)))
  {
    CleanDeletion(w, n);
    NothingLeft(w.objs[n].finalizers);
    hide Reconcile, GetIPAddressByAddress, KeyOf, Without, Atoi;
  }

  lemma NothingLeft(fs: seq<Finalizer>)
    ensures Without(fs) == [] <==> forall x | x in fs :: x == Ours
    ensures Ours !in fs ==> Without(fs) == fs
  {
    if Without(fs) != [] { assert Without(fs)[0] in Without(fs) && Without(fs)[0] in fs; }
    if x :| x in fs && x != Ours { assert x in Without(fs); }
  }

  lemma FinishFound(w: World, n: string)
    requires n in w.objs && LookedUpIn(w, n).OneFound?
    requires AnnotatedInterface(w.objs[n].ann) == Some(LookedUpIn(w, n).rec.iface)
    ensures var o := w.objs[n];
            Finish(State(w, FindForDelete(n, o), {})).w ==
              if Ours in o.finalizers then StoreObj(RecordGone(w, n), n, o.(finalizers := Without(o.finalizers)))
              else RecordGone(w, n)
  {
    var o, f := w.objs[n], LookedUpIn(w, n);
    assert f.id in Matching(w.ips, KeyOf(o));
    var s1, s2 := State(w, FindForDelete(n, o), {}), State(w, DeleteRecord(n, o, f.id, f.rec), {});
    FinishStep(s1, s2);
    FinishDelete(w, n, o, f.id, f.rec);
  }

  lemma FinishDelete(w: World, n: string, o: Obj, id: Id, rec: IpRecord)
    requires id in w.ips && n in w.objs && w.objs[n] == o
    ensures var w' := w.(ips := w.ips - {id});
            Finish(State(w, DeleteRecord(n, o, id, rec), {})).w ==
              if Ours in o.finalizers then StoreObj(w', n, o.(finalizers := Without(o.finalizers))) else w'
  {
    var w' := w.(ips := w.ips - {id});
    FinishStep(State(w, DeleteRecord(n, o, id, rec), {}), State(w', AfterDelete(n, o, Deleted), {}));
    FinishAfterDelete(w', n, o, Deleted);
  }

  lemma FinishAfterDelete(w: World, n: string, o: Obj, why: Why)
    requires n in w.objs && w.objs[n] == o
    ensures Finish(State(w, AfterDelete(n, o, why), {})).w ==
              if Ours in o.finalizers then StoreObj(w, n, o.(finalizers := Without(o.finalizers))) else w
  {
    if Ours in o.finalizers {
      var s := State(w, RemoveFinalizer(n, o, why), {});
      FinishStep(s, Call(s, Done));
    }
  }

  lemma FinishKept(w: World, n: string)
    requires n in w.objs
    requires !(LookedUpIn(w, n).OneFound? && AnnotatedInterface(w.objs[n].ann) == Some(LookedUpIn(w, n).rec.iface))
    ensures var o := w.objs[n];
            Finish(State(w, FindForDelete(n, o), {})).w ==
              if !LookedUpIn(w, n).ManyFound? && Ours in o.finalizers
              then StoreObj(w, n, o.(finalizers := Without(o.finalizers))) else w
  {
    var o, f := w.objs[n], LookedUpIn(w, n);
    var s := State(w, FindForDelete(n, o), {});
    var why := if f.NoneFound? then NotFound else if AnnotatedInterface(o.ann).None? then Unannotated else OtherInterface;
    if f.ManyFound? {
      FinishStep(s, State(w, Idle, {}));
    } else {
      FinishStep(s, State(w, AfterDelete(n, o, why), {}));
      FinishAfterDelete(w, n, o, why);
    }
  }

  /**
   An object that another finalizer keeps after its deletion was reconciled deletes again: if somebody now gives its
   address to a new record on the annotated interface, the next reconcile deletes that record too.
   */
  lemma KeptObjectDeletesAgain(w: World, n: string, rec: IpRecord)
    requires n in w.objs && w.objs[n].deleting && GetPrefix(w.objs[n].spec) == Some(rec.cidr)
    requires exists f :: f in w.objs[n].finalizers && f != Ours
    requires !LookedUpIn(w, n).ManyFound? && AnnotatedInterface(w.objs[n].ann) == Some(rec.iface)
    requires LookedUpIn(w, n).OneFound? ==> LookedUpIn(w, n).rec.iface == rec.iface
    requires IdsAllocated(w) && w.nextIp < MAX_INT
    ensures var w1 := Reconcile(w, n);
            && n in w1.objs && Ours !in w1.objs[n].finalizers && w1.nextIp == w.nextIp
            && Reconcile(Insert(w1, rec), n).ips == w1.ips
  {
    KeptAfterDeletion(w, n);
    DeletesNew(Reconcile(w, n), n, rec);
  }

  lemma KeptAfterDeletion(w: World, n: string)
    requires n in w.objs && w.objs[n].deleting && GetPrefix(w.objs[n].spec).Some?
    requires exists f :: f in w.objs[n].finalizers && f != Ours
    requires !LookedUpIn(w, n).ManyFound? && IdsAllocated(w)
    requires LookedUpIn(w, n).OneFound? ==> AnnotatedInterface(w.objs[n].ann) == Some(LookedUpIn(w, n).rec.iface)
    ensures var w1 := Reconcile(w, n);
            && n in w1.objs && w1.objs[n] == w.objs[n].(finalizers := w1.objs[n].finalizers)
            && Ours !in w1.objs[n].finalizers && w1.nextIp == w.nextIp && IdsAllocated(w1)
            && LookedUpIn(w1, n).NoneFound?
  {
    CleanDeletion(w, n);
    NoneLeft(w, n);
    hide Reconcile, GetIPAddressByAddress;
    var f :| f in w.objs[n].finalizers && f != Ours;
    assert f in Without(w.objs[n].finalizers);
  }

  lemma DeletesNew(w: World, n: string, rec: IpRecord)
    requires n in w.objs && w.objs[n].deleting && GetPrefix(w.objs[n].spec) == Some(rec.cidr)
    requires Ours !in w.objs[n].finalizers && AnnotatedInterface(w.objs[n].ann) == Some(rec.iface)
    requires LookedUpIn(w, n).NoneFound? && IdsAllocated(w) && w.nextIp < MAX_INT
    ensures Reconcile(Insert(w, rec), n).ips == w.ips
  {
    InsertedFound(w, rec);
    CleanDeletion(Insert(w, rec), n);
    hide Reconcile, GetIPAddressByAddress;
    assert Insert(w, rec).ips - {w.nextIp} == w.ips;
  }

  lemma NoneLeft(w: World, n: string)
    requires n in w.objs && !LookedUpIn(w, n).ManyFound?
    requires LookedUpIn(w, n).OneFound? ==> AnnotatedInterface(w.objs[n].ann) == Some(LookedUpIn(w, n).rec.iface)
    ensures GetIPAddressByAddress(RecordGone(w, n).ips, KeyOf(w.objs[n])).NoneFound?
  {
    var f, c := LookedUpIn(w, n), KeyOf(w.objs[n]);
    assert forall i | i in w.ips && w.ips[i].cidr == c :: i in Matching(w.ips, c);
    assert forall i | i in Matching(w.ips, c) :: f.OneFound? && i == f.id;
    assert forall i | i in RecordGone(w, n).ips :: RecordGone(w, n).ips[i].cidr != c;
  }
}
