/** What a reconcile of the IPUpdate controller reports: by its last call, and for a clean one by the stores it begins with. */
module IPUpdateOutcome {
  import opened Wrappers
  import opened Decimal
  import opened Netbox
  import opened IPUpdate
  import opened IPUpdateConvergence

  /** How a reconcile ended; only the first one is an error. */
  datatype Outcome = Failed | NothingToDo | FinalizerDropped | FinalizerAdded | Conflicted | Updated(o: Obj, iface: Interface)

  /**
   What a reconcile returns after the call that is pending in s was answered with r and no call follows.  Nothing to do, or
   nothing left to do, is a success; an object without a valid prefix is an error.
   */
  function OutcomeOf(s: State, r: Reply): Outcome {
    if r != Done then Failed else
    match s.pc
    case GetObject(n) => if n !in s.w.objs then NothingToDo else Failed
    case AddFinalizer(n, _) => if n in s.w.objs then FinalizerAdded else Failed
    case FindForDelete(_, o) => if LookedUp(s, o).ManyFound? then Failed else NothingToDo
    case DeleteRecord(_, _, id, _) => if id in s.w.ips then NothingToDo else Failed
    case RemoveFinalizer(n, _, _) => if n in s.w.objs then FinalizerDropped else Failed
    case PatchConflict(n, _, _) => if n in s.w.objs then Conflicted else Failed
    case PatchMetadata(n, o, _, iface) => if n in s.w.objs then Updated(o, iface) else Failed
    case _ => Failed
  }

  /**
   A reconcile that ends with this call reports success exactly if the call is answered, the object that is patched still
   exists, the record to delete does too, a lookup was not ambiguous, and an object that was read is gone.
   */
  lemma SuccessIff(s: State, r: Reply)
    ensures OutcomeOf(s, r) != Failed <==>
              && r == Done
              && (s.pc.GetObject? || s.pc.AddFinalizer? || s.pc.FindForDelete? || s.pc.DeleteRecord? || s.pc.RemoveFinalizer?
                  || s.pc.PatchConflict? || s.pc.PatchMetadata?)
              && (s.pc.GetObject? ==> s.pc.n !in s.w.objs)
              && (s.pc.AddFinalizer? || s.pc.RemoveFinalizer? || s.pc.PatchConflict? || s.pc.PatchMetadata? ==> s.pc.n in s.w.objs)
              && (s.pc.DeleteRecord? ==> s.pc.id in s.w.ips)
              && (s.pc.FindForDelete? ==> |Matching(s.w.ips, KeyOf(s.pc.o))| < 2)
    ensures OutcomeOf(s, r).Conflicted? ==> s.pc.PatchConflict?
    ensures OutcomeOf(s, r).FinalizerAdded? ==> s.pc.AddFinalizer?
    ensures OutcomeOf(s, r).FinalizerDropped? ==> s.pc.RemoveFinalizer?
    ensures OutcomeOf(s, r).Updated? ==>
              s.pc.PatchMetadata? && s.pc.o == OutcomeOf(s, r).o && s.pc.iface == OutcomeOf(s, r).iface
  {
  }

  // ---------- clean reconciles ----------

  /** Where the address of an object belongs: the claim chain leads to a name that one device has, which has a LAG. */
  function TargetOf(w: World, n: string): Option<(Device, Interface)> {
    if n !in w.bmcOf then None else
    var dev := GetDeviceByName(w.devices, w.bmcOf[n]);
    if dev.None? then None else
    var iface := BestLag(InterfacesOf(w.ifaces, dev.value.id));
    if iface.None? then None else Some((dev.value, iface.value))
  }

  /** The record with this id can be made the primary IP of the device, or is it already. */
  predicate CanBePrimary(w: World, dev: Device, id: int) { dev.primary4 == id || dev.id in w.devices }

  /** What a clean reconcile reports, by the stores it begins with. */
  function CleanOutcome(w: World, n: string): Outcome {
    if n !in w.objs then NothingToDo else
    var o, f := w.objs[n], LookedUpIn(w, n);
    if o.spec.address.None? then Failed
    else if o.deleting then
      if f.ManyFound? then Failed else if Ours in o.finalizers then FinalizerDropped else NothingToDo
    else if Ours !in o.finalizers then FinalizerAdded
    else if TargetOf(w, n).None? then Failed
    else
      var (dev, iface) := TargetOf(w, n).value;
      match f
      case ManyFound => Failed
      case OneFound(id, rec) =>
        if rec.iface != iface.id || DeviceOf(w.ifaces, iface.id) != dev.id then Conflicted
        else if CanBePrimary(w, dev, id) then Updated(o, iface) else Failed
      case NoneFound => if w.nextIp < MAX_INT && CanBePrimary(w, dev, w.nextIp) then Updated(o, iface) else Failed
  }

  /** The outcome when all remaining calls are answered. */
  function FinishOutcome(s: State): Outcome
    decreases Rank(s.pc)
  {
    if s.pc.Idle? then Failed
    else
      CallsRunOut(s, Done);
      if Call(s, Done).pc.Idle? then OutcomeOf(s, Done) else FinishOutcome(Call(s, Done))
  }

  /** After a run of answered calls the last of which was pending, the outcome is that of its last call. */
  lemma {:induction false} RunOutcome(s: State, acts: seq<Action>)
    requires acts != [] && forall i | 0 <= i < |acts| :: acts[i] == Answer(Done)
    requires !Run(s, acts[..|acts| - 1]).pc.Idle? && Run(s, acts).pc.Idle?
    ensures OutcomeOf(Run(s, acts[..|acts| - 1]), Done) == FinishOutcome(s)
    decreases |acts|
  {
    hide Call, OutcomeOf;
    if s.pc.Idle? { IdleStays(s, acts[..|acts| - 1]); }
    var first, rest := [Answer(Done)], acts[1..];
    assert acts == first + rest && first[..0] == [];
    assert Run(s, first) == Call(s, Done);
    if rest == [] {
      assert acts == first;
    } else {
      var t := Call(s, Done);
      assert acts[..|acts| - 1] == first + rest[..|rest| - 1];
      RunAppend(s, first, rest);
      RunAppend(s, first, rest[..|rest| - 1]);
      if t.pc.Idle? { IdleStays(t, rest[..|rest| - 1]); }
      CallsRunOut(s, Done);
      RunOutcome(t, rest);
    }
  }

  lemma OutcomeStep(s: State, t: State)
    requires !s.pc.Idle? && t == Call(s, Done)
    ensures FinishOutcome(s) == if t.pc.Idle? then OutcomeOf(s, Done) else FinishOutcome(t)
  {
    hide Call, OutcomeOf;
  }

  lemma MetadataOutcome(s: State)
    requires s.pc.PatchMetadata? && s.pc.n in s.w.objs
    ensures FinishOutcome(s) == Updated(s.pc.o, s.pc.iface)
  {
    hide WithMetadata;
    OutcomeStep(s, Call(s, Done));
  }

  lemma AddressOutcome(s: State, n: string, o: Obj, dev: Device, iface: Interface, id: Id)
    requires n in s.w.objs && s.pc == AfterAddress(n, o, dev, iface, id)
    ensures FinishOutcome(s) == if CanBePrimary(s.w, dev, id) then Updated(o, iface) else Failed
  {
    if dev.primary4 == id {
      MetadataOutcome(s);
    } else {
      var t := Call(s, Done);
      OutcomeStep(s, t);
      if dev.id in s.w.devices { MetadataOutcome(t); }
    }
  }

  lemma CreateOutcome(s: State, n: string, o: Obj, dev: Device, iface: Interface, vrf: int)
    requires n in s.w.objs && s.pc == CreateRecord(n, o, dev, iface, vrf) && GetPrefix(o.spec).Some?
    ensures FinishOutcome(s) ==
              if s.w.nextIp < MAX_INT && CanBePrimary(s.w, dev, s.w.nextIp) then Updated(o, iface) else Failed
  {
    var t := Call(s, Done);
    OutcomeStep(s, t);
    if s.w.nextIp < MAX_INT { AddressOutcome(t, n, o, dev, iface, s.w.nextIp); }
  }

  lemma VrfOutcome(s: State, n: string, o: Obj, dev: Device, iface: Interface)
    requires n in s.w.objs && s.pc == GetVrf(n, o, dev, iface) && GetPrefix(o.spec).Some?
    ensures FinishOutcome(s) ==
              if s.w.nextIp < MAX_INT && CanBePrimary(s.w, dev, s.w.nextIp) then Updated(o, iface) else Failed
  {
    hide VrfFor, CanBePrimary;
    var t := s.(pc := CreateRecord(n, o, dev, iface, VrfFor(s.w, o)));
    OutcomeStep(s, t);
    CreateOutcome(t, n, o, dev, iface, VrfFor(s.w, o));
  }

  lemma LookupOutcome(s: State, n: string, dev: Device, iface: Interface)
    requires n in s.w.objs && s.pc == FindRecord(n, s.w.objs[n], dev, iface) && GetPrefix(s.w.objs[n].spec).Some?
    ensures var w, o := s.w, s.w.objs[n];
            FinishOutcome(s) ==
              match LookedUpIn(w, n)
              case ManyFound => Failed
              case OneFound(id, rec) =>
                if rec.iface != iface.id || DeviceOf(w.ifaces, iface.id) != dev.id then Conflicted
                else if CanBePrimary(w, dev, id) then Updated(o, iface) else Failed
              case NoneFound => if w.nextIp < MAX_INT && CanBePrimary(w, dev, w.nextIp) then Updated(o, iface) else Failed
  {
    hide GetIPAddressByAddress, DeviceOf, CanBePrimary, VrfFor, WithConflict;
    var o, t := s.w.objs[n], Call(s, Done);
    OutcomeStep(s, t);
    match LookedUpIn(s.w, n) {
      case NoneFound =>
        VrfOutcome(t, n, o, dev, iface);
      case OneFound(id, rec) =>
        if t.pc.PatchConflict? {
          OutcomeStep(t, Call(t, Done));
        } else {
          AddressOutcome(t, n, o, dev, iface, id);
        }
      case ManyFound =>
    }
  }

  lemma TargetOutcome(s: State, n: string, o: Obj)
    requires s.pc == FindDeviceName(n, o)
    ensures FinishOutcome(s) ==
              if TargetOf(s.w, n).None? then Failed
              else FinishOutcome(s.(pc := FindRecord(n, o, TargetOf(s.w, n).value.0, TargetOf(s.w, n).value.1)))
  {
    hide BestLag, InterfacesOf, GetDeviceByName;
    var t := Call(s, Done);
    OutcomeStep(s, t);
    if n in s.w.bmcOf {
      var u := Call(t, Done);
      OutcomeStep(t, u);
      if !u.pc.Idle? { OutcomeStep(u, Call(u, Done)); }
    }
  }

  lemma DeletionOutcome(s: State, n: string)
    requires n in s.w.objs && s.pc == FindForDelete(n, s.w.objs[n])
    ensures var o, f := s.w.objs[n], LookedUpIn(s.w, n);
            FinishOutcome(s) ==
              if f.ManyFound? then Failed else if Ours in o.finalizers then FinalizerDropped else NothingToDo
  {
    hide GetIPAddressByAddress, AnnotatedInterface, PatchFinalizers, Learned, FinishOutcome;
    var t, f := Call(s, Done), LookedUpIn(s.w, n);
    OutcomeStep(s, t);
    if f.OneFound? { assert f.id in Matching(s.w.ips, KeyOf(s.w.objs[n])); }
    if !t.pc.Idle? {
      OutcomeStep(t, Call(t, Done));
      if t.pc.DeleteRecord? && Ours in s.w.objs[n].finalizers {
        OutcomeStep(Call(t, Done), Call(Call(t, Done), Done));
      }
    }
  }

  /** A clean reconcile reports what the stores it begins with say. */
  lemma FinishOutcomeMeaning(w: World, n: string, facts: set<Fact>)
    ensures FinishOutcome(State(w, GetObject(n), facts)) == CleanOutcome(w, n)
  {
    hide TargetOf, LookedUpIn, CanBePrimary, DeviceOf, PatchFinalizers;
    var s := State(w, GetObject(n), facts);
    var t := Call(s, Done);
    OutcomeStep(s, t);
    if !t.pc.Idle? {
      match t.pc {
        case FindForDelete(_, _) => DeletionOutcome(t, n);
        case AddFinalizer(_, _) => OutcomeStep(t, Call(t, Done));
        case FindDeviceName(_, o) =>
          TargetOutcome(t, n, o);
          if TargetOf(w, n).Some? {
            var (dev, iface) := TargetOf(w, n).value;
            LookupOutcome(t.(pc := FindRecord(n, o, dev, iface)), n, dev, iface);
          }
      }
    }
  }

  /** A clean reconcile changes nothing where there is nothing to find, no usable address, no target, or more than one record. */
  lemma NothingChanges(w: World, n: string)
    requires n in w.objs && w.objs[n].spec.address.Some? ==>
               && (Ours in w.objs[n].finalizers || w.objs[n].deleting)
               && (LookedUpIn(w, n).ManyFound? || (!w.objs[n].deleting && TargetOf(w, n).None?))
    ensures Reconcile(w, n) == w
  {
    if n in w.objs && w.objs[n].spec.address.Some? {
      if w.objs[n].deleting {
        CleanDeletion(w, n);
      } else {
        AfterObject(w, n);
        if TargetOf(w, n).Some? { ManyStops(w, n); } else { NoTargetStops(w, n, w.objs[n]); }
      }
    } else {
      FinishStep(State(w, GetObject(n), {}), State(w, Idle, {}));
    }
  }

  lemma ManyStops(w: World, n: string)
    requires n in w.objs && LookedUpIn(w, n).ManyFound? && TargetOf(w, n).Some?
    ensures Finish(State(w, FindDeviceName(n, w.objs[n]), {})).w == w
  {
    hide BestLag, InterfacesOf, GetDeviceByName, GetIPAddressByAddress;
    var o := w.objs[n];
    var (dev, iface) := TargetOf(w, n).value;
    TargetResolved(w, n, o, dev, iface);
    FinishStep(State(w, FindRecord(n, o, dev, iface), {}), State(w, Idle, {}));
  }

  lemma NoTargetStops(w: World, n: string, o: Obj)
    requires TargetOf(w, n).None?
    ensures Finish(State(w, FindDeviceName(n, o), {})).w == w
  {
    hide BestLag, InterfacesOf, GetDeviceByName, Finish;
    if n !in w.bmcOf {
      FinishStep(State(w, FindDeviceName(n, o), {}), State(w, Idle, {}));
    } else {
      AfterName(w, n, o);
      var dev := GetDeviceByName(w.devices, w.bmcOf[n]);
      if dev.None? {
        FinishStep(State(w, GetDevice(n, o, w.bmcOf[n]), {}), State(w, Idle, {}));
      } else {
        AfterDevice(w, n, o, w.bmcOf[n], dev.value);
        FinishStep(State(w, GetInterfaces(n, o, dev.value), {}), State(w, Idle, {}));
      }
    }
  }
}
