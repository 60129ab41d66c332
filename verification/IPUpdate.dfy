/**
 The IPUpdate controller as a step machine: one step per API call, in between any step of users,
 NetBox administrators and other controllers, and a crash at any point.
 Reconciles are serial, so the machine has one program counter.
 */
module IPUpdate {
  import opened Wrappers
  import opened Decimal
  import opened Netbox
  import opened MergePatch

  // ---------- the two stores ----------

  /** Annotation keys: the three of this controller, and all others. */
  datatype Key = DeviceKey | InterfaceKey | ConflictedKey | OtherKey(name: string)

  datatype Finalizer = Ours | Foreign(name: string)

  type Annotations = map<Key, string>

  datatype Obj = Obj(uid: nat, spec: Spec, finalizers: seq<Finalizer>, deleting: bool, ann: Annotations)

  /**
   `bmcOf` is the device name the claim chain of an object leads to; `vrfs` gives, per address/prefix,
   the VRF ids of the NetBox prefixes equal to its masked form.
   */
  datatype World = World(
    objs: map<string, Obj>, nextUid: nat, bmcOf: map<string, string>,
    devices: map<Id, Device>, ifaces: seq<Interface>, ips: IpTable, nextIp: Id, vrfs: map<Cidr, seq<int>>)

  // ---------- program counter ----------

  datatype Why = NotFound | Deleted | Unannotated | OtherInterface

  /** The next API call, with the local variables it needs; `n` names the object and `o` is the copy that was read. */
  datatype Pc =
    | Idle
    | GetObject(n: string)
    | AddFinalizer(n: string, o: Obj)
    | FindForDelete(n: string, o: Obj)
    | DeleteRecord(n: string, o: Obj, id: Id, rec: IpRecord)
    | RemoveFinalizer(n: string, o: Obj, why: Why)
    | FindDeviceName(n: string, o: Obj)
    | GetDevice(n: string, o: Obj, name: string)
    | GetInterfaces(n: string, o: Obj, dev: Device)
    | FindRecord(n: string, o: Obj, dev: Device, iface: Interface)
    | GetVrf(n: string, o: Obj, dev: Device, iface: Interface)
    | CreateRecord(n: string, o: Obj, dev: Device, iface: Interface, vrf: int)
    | SetPrimary(n: string, o: Obj, dev: Device, iface: Interface, id: Id)
    | PatchMetadata(n: string, o: Obj, dev: Device, iface: Interface)
    | PatchConflict(n: string, o: Obj, kind: string)

  /**
   What the history remembers: a reconcile of object `uid` found or created the record of that address on
   that interface (Assigned), and stored that interface in the object's annotations (Annotated).
   */
  datatype Fact = Assigned(uid: nat, cidr: Cidr, iface: Id) | Annotated(uid: nat, cidr: Cidr, iface: Id)

  datatype State = State(w: World, pc: Pc, facts: set<Fact>)

  // ---------- pure helpers of the controller ----------

  /** `deviceIDAndInterfaceIDFromAnnotations`, its interface id: both annotations must be there and parse. */
  function AnnotatedInterface(ann: Annotations): Option<int> {
    if DeviceKey !in ann || InterfaceKey !in ann then None
    else if Atoi(ann[DeviceKey]).None? then None
    else Atoi(ann[InterfaceKey])
  }

  /** The annotations after `updateIPAddressMetadata`, in memory. */
  function WithMetadata(ann: Annotations, dev: Device, iface: Interface): Annotations {
    (ann - {ConflictedKey})[DeviceKey := Itoa(dev.id)][InterfaceKey := Itoa(iface.id)]
  }

  /** The annotations name device and interface by their ids, and no conflict. */
  predicate Names(ann: Annotations, dev: Id, iface: Id) {
    && DeviceKey in ann && ann[DeviceKey] == Itoa(dev)
    && InterfaceKey in ann && ann[InterfaceKey] == Itoa(iface)
    && ConflictedKey !in ann
  }

  /** The annotations name this conflict, and device and interface as before. */
  predicate NamesConflict(before: Annotations, after: Annotations, kind: string) {
    && ConflictedKey in after && after[ConflictedKey] == kind
    && SameAt(before, after, DeviceKey) && SameAt(before, after, InterfaceKey)
  }

  ghost predicate OthersKept(a: Annotations, b: Annotations) { forall k: Key | k.OtherKey? :: SameAt(a, b, k) }

  function WithConflict(ann: Annotations, kind: string): Annotations { ann[ConflictedKey := kind] }

  function Without(fs: seq<Finalizer>): (r: seq<Finalizer>)
    ensures Ours !in r
    ensures forall f | f != Ours :: f in r <==> f in fs
    ensures Ours !in fs ==> r == fs
  {
    if fs == [] then []
    else Without(fs[..|fs| - 1]) + (if fs[|fs| - 1] == Ours then [] else [fs[|fs| - 1]])
  }

  /** With the two facts about lists without the finalizer, and with nothing else, this says what is removed: order stays. */
  lemma {:induction false} WithoutConcat(a: seq<Finalizer>, b: seq<Finalizer>)
    ensures Without(a + b) == Without(a) + Without(b) && Without([Ours]) == []
    decreases |b|
  {
    assert [Ours][..0] == [];
    if b == [] {
      assert a + b == a;
    } else {
      assert (a + b)[..|a + b| - 1] == a + b[..|b| - 1];
      WithoutConcat(a, b[..|b| - 1]);
    }
  }

  /** The device an interface belongs to when the record is read. */
  function DeviceOf(ifaces: seq<Interface>, id: Id): int {
    if ifaces == [] then 0
    else if ifaces[|ifaces| - 1].id == id then ifaces[|ifaces| - 1].device
    else DeviceOf(ifaces[..|ifaces| - 1], id)
  }

  // ---------- effects of the writing calls ----------

  /** An object that is being deleted goes away when its last finalizer does. */
  function StoreObj(w: World, n: string, o: Obj): World {
    w.(objs := if o.deleting && o.finalizers == [] then w.objs - {n} else w.objs[n := o])
  }

  /** A merge patch replaces the finalizer list as a whole. */
  function PatchFinalizers(w: World, n: string, fs: seq<Finalizer>): World {
    if n in w.objs then StoreObj(w, n, w.objs[n].(finalizers := fs)) else w
  }

  function PatchAnnotations(w: World, n: string, base: Annotations, changed: Annotations): World {
    if n in w.objs then StoreObj(w, n, w.objs[n].(ann := Apply(w.objs[n].ann, Diff(base, changed)))) else w
  }

  function Insert(w: World, rec: IpRecord): World
    requires w.nextIp < MAX_INT
  {
    w.(ips := w.ips[w.nextIp := rec], nextIp := w.nextIp + 1)
  }

  function NewRecord(o: Obj, dev: Device, iface: Interface, vrf: int): IpRecord
    requires GetPrefix(o.spec).Some?
  {
    IpRecord(GetPrefix(o.spec).value, iface.id, dev.tenant, vrf)
  }

  // ---------- where each completed call leads ----------

  function AfterGet(n: string, o: Obj): Pc {
    if GetPrefix(o.spec).None? then Idle
    else if o.deleting then FindForDelete(n, o)
    else if Ours !in o.finalizers then AddFinalizer(n, o)
    else FindDeviceName(n, o)
  }

  /** Without a stored finalizer there is nothing to remove, and no call is made. */
  function AfterDelete(n: string, o: Obj, why: Why): Pc {
    if Ours in o.finalizers then RemoveFinalizer(n, o, why) else Idle
  }

  function AfterFindForDelete(n: string, o: Obj, f: Found): Pc {
    match f
    case NoneFound => AfterDelete(n, o, NotFound)
    case ManyFound => Idle
    case OneFound(id, rec) =>
      if AnnotatedInterface(o.ann).None? then AfterDelete(n, o, Unannotated)
      else if rec.iface != AnnotatedInterface(o.ann).value then AfterDelete(n, o, OtherInterface)
      else DeleteRecord(n, o, id, rec)
  }

  function AfterFindRecord(n: string, o: Obj, dev: Device, iface: Interface, f: Found, currDevice: int): Pc {
    match f
    case NoneFound => GetVrf(n, o, dev, iface)
    case ManyFound => Idle
    case OneFound(id, rec) =>
      if rec.iface != iface.id then PatchConflict(n, o, "interface")
      else if dev.id != currDevice then PatchConflict(n, o, "device")
      else AfterAddress(n, o, dev, iface, id)
  }

  function AfterAddress(n: string, o: Obj, dev: Device, iface: Interface, id: Id): Pc {
    if dev.primary4 == id then PatchMetadata(n, o, dev, iface) else SetPrimary(n, o, dev, iface, id)
  }

  // ---------- one API call ----------

  function KeyOf(o: Obj): Cidr {
    if GetPrefix(o.spec).Some? then GetPrefix(o.spec).value else InvalidPrefix
  }

  function LookedUp(s: State, o: Obj): Found { GetIPAddressByAddress(s.w.ips, KeyOf(o)) }

  /** The VRF of the one matching prefix; 0, the global VRF, when there is none or more than one. */
  function UniqueVrf(vrfs: seq<int>): int { if |vrfs| == 1 then vrfs[0] else 0 }

  function VrfFor(w: World, o: Obj): int { UniqueVrf(if KeyOf(o) in w.vrfs then w.vrfs[KeyOf(o)] else []) }

  /** The world after the call takes effect; calls the server rejects, and reads, change nothing. */
  function Effect(w: World, pc: Pc): World {
    match pc
    case AddFinalizer(n, o) => PatchFinalizers(w, n, o.finalizers + [Ours])
    case RemoveFinalizer(n, o, _) => PatchFinalizers(w, n, Without(o.finalizers))
    case DeleteRecord(_, _, id, _) => w.(ips := w.ips - {id})
    case CreateRecord(_, o, dev, iface, vrf) =>
      if GetPrefix(o.spec).Some? && w.nextIp < MAX_INT then Insert(w, NewRecord(o, dev, iface, vrf)) else w
    case SetPrimary(_, _, dev, _, id) =>
      if dev.id in w.devices then w.(devices := w.devices[dev.id := dev.(primary4 := id)]) else w
    case PatchMetadata(n, o, dev, iface) => PatchAnnotations(w, n, o.ann, WithMetadata(o.ann, dev, iface))
    case PatchConflict(n, o, kind) => PatchAnnotations(w, n, o.ann, WithConflict(o.ann, kind))
    case _ => w
  }

  /** The next call after this one was done and answered; an error of the server ends the reconcile. */
  function Then(s: State): Pc {
    var w := s.w;
    match s.pc
    case Idle => Idle
    case GetObject(n) => if n in w.objs then AfterGet(n, w.objs[n]) else Idle
    case FindForDelete(n, o) => AfterFindForDelete(n, o, LookedUp(s, o))
    case DeleteRecord(n, o, id, _) => if id in w.ips then AfterDelete(n, o, Deleted) else Idle
    case FindDeviceName(n, o) => if n in w.bmcOf then GetDevice(n, o, w.bmcOf[n]) else Idle
    case GetDevice(n, o, name) =>
      var d := GetDeviceByName(w.devices, name);
      if d.Some? then GetInterfaces(n, o, d.value) else Idle
    case GetInterfaces(n, o, dev) =>
      var t := BestLag(InterfacesOf(w.ifaces, dev.id));
      if t.Some? then FindRecord(n, o, dev, t.value) else Idle
    case FindRecord(n, o, dev, iface) => AfterFindRecord(n, o, dev, iface, LookedUp(s, o), DeviceOf(w.ifaces, iface.id))
    case GetVrf(n, o, dev, iface) => CreateRecord(n, o, dev, iface, VrfFor(w, o))
    case CreateRecord(n, o, dev, iface, _) =>
      if w.nextIp < MAX_INT then AfterAddress(n, o, dev, iface, w.nextIp) else Idle
    case SetPrimary(n, o, dev, iface, _) => if dev.id in w.devices then PatchMetadata(n, o, dev, iface) else Idle
    case _ => Idle
  }

  /** What the history learns when the call takes effect. */
  function Learned(s: State): set<Fact> {
    match s.pc
    case FindRecord(n, o, dev, iface) =>
      if Then(s).SetPrimary? || Then(s).PatchMetadata? then {Assigned(o.uid, KeyOf(o), iface.id)} else {}
    case CreateRecord(_, o, _, iface, _) =>
      if s.w.nextIp < MAX_INT && GetPrefix(o.spec).Some? then {Assigned(o.uid, KeyOf(o), iface.id)} else {}
    case PatchMetadata(n, o, _, iface) =>
      if n in s.w.objs then {Annotated(o.uid, KeyOf(o), iface.id)} else {}
    case _ => {}
  }

  function Call(s: State, r: Reply): State {
    match r
    case Refused => s.(pc := Idle)
    case Lost => State(Effect(s.w, s.pc), Idle, if s.pc.FindRecord? then s.facts else s.facts + Learned(s))
    case Done => State(Effect(s.w, s.pc), Then(s), s.facts + Learned(s))
  }

  // ---------- everybody else ----------

  /**
   Steps of users, NetBox administrators and other controllers.  Nobody else touches this controller's finalizer
   and annotations.  EditSpec is the one step the API server of the IPAddress resource forbids; it is here to show why.
   */
  datatype Env =
    | CreateObject(n: string, spec: Spec, finalizers: seq<Finalizer>, ann: Annotations)
    | DeleteObject(n: string)
    | SetFinalizers(n: string, finalizers: seq<Finalizer>)
    | SetAnnotations(n: string, ann: Annotations)
    | EditSpec(n: string, spec: Spec)
    | EditInventory(bmcOf: map<string, string>, devices: map<Id, Device>, ifaces: seq<Interface>, vrfs: map<Cidr, seq<int>>)
    | AddRecord(rec: IpRecord)
    | DropRecord(id: Id)
    | MoveRecord(id: Id, iface: Id)
    | ReaddressRecord(id: Id, cidr: Cidr)

  predicate OursUnchanged(a: Annotations, b: Annotations) {
    SameAt(a, b, DeviceKey) && SameAt(a, b, InterfaceKey) && SameAt(a, b, ConflictedKey)
  }

  function Interfere(w: World, e: Env): World {
    match e
    case CreateObject(n, spec, fs, ann) =>
      if n in w.objs || Ours in fs || !OursUnchanged(map[], ann) then w
      else w.(objs := w.objs[n := Obj(w.nextUid, spec, fs, false, ann)], nextUid := w.nextUid + 1)
    case DeleteObject(n) => if n in w.objs then StoreObj(w, n, w.objs[n].(deleting := true)) else w
    case SetFinalizers(n, fs) =>
      if n in w.objs && (Ours in fs <==> Ours in w.objs[n].finalizers) then PatchFinalizers(w, n, fs) else w
    case SetAnnotations(n, ann) =>
      if n in w.objs && OursUnchanged(w.objs[n].ann, ann) then StoreObj(w, n, w.objs[n].(ann := ann)) else w
    case EditSpec(n, spec) => if n in w.objs then StoreObj(w, n, w.objs[n].(spec := spec)) else w
    case EditInventory(bmcOf, devices, ifaces, vrfs) =>
      w.(bmcOf := bmcOf, devices := devices, ifaces := ifaces, vrfs := vrfs)
    case AddRecord(rec) => if w.nextIp < MAX_INT then Insert(w, rec) else w
    case DropRecord(id) => w.(ips := w.ips - {id})
    case MoveRecord(id, iface) => if id in w.ips then w.(ips := w.ips[id := w.ips[id].(iface := iface)]) else w
    case ReaddressRecord(id, cidr) => if id in w.ips then w.(ips := w.ips[id := w.ips[id].(cidr := cidr)]) else w
  }

  // ---------- runs ----------

  datatype Action = Begin(n: string) | Answer(r: Reply) | Other(e: Env) | Crash

  function Step(s: State, a: Action): State {
    match a
    case Begin(n) => if s.pc.Idle? then s.(pc := GetObject(n)) else s
    case Answer(r) => if s.pc.Idle? then s else Call(s, r)
    case Other(e) => s.(w := Interfere(s.w, e))
    case Crash => s.(pc := Idle)
  }

  function Run(s: State, acts: seq<Action>): State {
    if acts == [] then s else Step(Run(s, acts[..|acts| - 1]), acts[|acts| - 1])
  }

  lemma {:induction false} RunAppend(s: State, a: seq<Action>, b: seq<Action>)
    ensures Run(s, a + b) == Run(Run(s, a), b)
    decreases |b|
  {
    if b == [] {
      assert a + b == a;
    } else {
      assert (a + b)[..|a + b| - 1] == a + b[..|b| - 1];
      RunAppend(s, a, b[..|b| - 1]);
    }
  }

  /** How many calls a reconcile can still make: every reply uses up at least one, so a reconcile ends. */
  function Rank(pc: Pc): nat {
    match pc
    case Idle => 0
    case GetObject(_) => 9
    case AddFinalizer(_, _) => 1
    case FindForDelete(_, _) => 3
    case DeleteRecord(_, _, _, _) => 2
    case RemoveFinalizer(_, _, _) => 1
    case FindDeviceName(_, _) => 8
    case GetDevice(_, _, _) => 7
    case GetInterfaces(_, _, _) => 6
    case FindRecord(_, _, _, _) => 5
    case GetVrf(_, _, _, _) => 4
    case CreateRecord(_, _, _, _, _) => 3
    case SetPrimary(_, _, _, _, _) => 2
    case PatchMetadata(_, _, _, _) => 1
    case PatchConflict(_, _, _) => 1
  }

  lemma CallsRunOut(s: State, r: Reply)
    requires !s.pc.Idle?
    ensures Rank(Call(s, r).pc) < Rank(s.pc)
  {
  }
}
