/**
 What the IPUpdate controller leaves behind in NetBox when an object is deleted, exactly.
 */
module IPUpdateLeaks {
  import opened Wrappers
  import opened Decimal
  import opened Netbox
  import opened MergePatch
  import opened IPUpdate
  import opened IPUpdateSafety
  import opened IPUpdateRecords

  // ---------- what is left behind ----------

  /** Outside NetBox edits that can put a record of some address on some interface. */
  predicate NoOutsidePlacing(acts: seq<Action>) {
    forall i | 0 <= i < |acts| ::
      acts[i].Other? ==> !acts[i].e.AddRecord? && !acts[i].e.ReaddressRecord? && !acts[i].e.MoveRecord?
  }

  predicate NoOutsideDrops(acts: seq<Action>) {
    forall i | 0 <= i < |acts| :: !(acts[i].Other? && acts[i].e.DropRecord?)
  }

  /** No record of this address is on this interface. */
  predicate ClearOf(ips: IpTable, c: Cidr, iface: int) {
    forall id | id in ips :: !(ips[id].cidr == c && ips[id].iface == iface)
  }

  ghost predicate LeakInv(s: State) {
    && (s.pc.DeleteRecord? ==> Matching(s.w.ips, KeyOf(s.pc.o)) <= {s.pc.id})
    && (s.pc.RemoveFinalizer? ==>
          match s.pc.why
          case NotFound => Matching(s.w.ips, KeyOf(s.pc.o)) == {}
          case Deleted => Matching(s.w.ips, KeyOf(s.pc.o)) == {}
          case Unannotated => AnnotatedInterface(s.pc.o.ann).None?
          case OtherInterface => AnnotatedInterface(s.pc.o.ann).Some?
                                 && ClearOf(s.w.ips, KeyOf(s.pc.o), AnnotatedInterface(s.pc.o.ann).value))
  }

  lemma LeakCall(s: State, r: Reply)
    requires LeakInv(s)
    ensures LeakInv(Call(s, r))
  {
    if r == Done && s.pc.FindForDelete? {
      var f, c := LookedUp(s, s.pc.o), KeyOf(s.pc.o);
      if f.OneFound? {
        forall id | id in s.w.ips && s.w.ips[id].cidr == c ensures s.w.ips[id] == f.rec {
          assert id in Matching(s.w.ips, c);
        }
      }
    }
  }

  lemma LeakInterfere(s: State, e: Env)
    requires LeakInv(s) && !e.AddRecord? && !e.ReaddressRecord? && !e.MoveRecord?
    ensures LeakInv(s.(w := Interfere(s.w, e)))
  {
    var ips' := Interfere(s.w, e).ips;
    assert forall id | id in ips' :: id in s.w.ips && ips'[id] == s.w.ips[id];
    if s.pc.DeleteRecord? || s.pc.RemoveFinalizer? {
      assert Matching(ips', KeyOf(s.pc.o)) <= Matching(s.w.ips, KeyOf(s.pc.o));
    }
  }

  lemma {:induction false} LeakRun(s: State, acts: seq<Action>)
    requires LeakInv(s) && NoOutsidePlacing(acts)
    ensures LeakInv(Run(s, acts))
  {
    if acts != [] {
      LeakRun(s, acts[..|acts| - 1]);
      var before, a := Run(s, acts[..|acts| - 1]), acts[|acts| - 1];
      match a {
        case Other(e) => LeakInterfere(before, e);
        case Answer(r) => LeakCall(before, r);
        case _ =>
      }
    }
  }

  /**
   A reconcile goes on to remove the finalizer after its lookup exactly in three cases: nothing was found, the
   annotations are missing or do not parse, or they name another interface than the one found.
   With several records, or a failed call, the finalizer stays.
   */
  lemma DropsFinalizerIff(s: State, r: Reply)
    requires s.pc.FindForDelete? && Ours in s.pc.o.finalizers
    ensures Call(s, r).pc.RemoveFinalizer? <==>
            && r == Done
            && var f, k := LookedUp(s, s.pc.o), AnnotatedInterface(s.pc.o.ann);
               f.NoneFound? || (f.OneFound? && (k.None? || k.value != f.rec.iface))
  {
  }

  ghost predicate LeftoverInv(s: State) {
    s.pc.RemoveFinalizer? && (s.pc.why.Unannotated? || s.pc.why.OtherInterface?) ==> Matching(s.w.ips, KeyOf(s.pc.o)) != {}
  }

  lemma {:induction false} LeftoverRun(s: State, acts: seq<Action>)
    requires LeftoverInv(s) && NoOutsidePlacing(acts) && NoOutsideDrops(acts)
    ensures LeftoverInv(Run(s, acts))
  {
    if acts != [] {
      LeftoverRun(s, acts[..|acts| - 1]);
      LeftoverStep(Run(s, acts[..|acts| - 1]), acts[|acts| - 1]);
    }
  }

  lemma LeftoverStep(s: State, a: Action)
    requires LeftoverInv(s) && NoOutsidePlacing([a]) && NoOutsideDrops([a])
    ensures LeftoverInv(Step(s, a))
  {
    assert [a][0] == a;
    match a {
      case Other(e) =>
        assert Interfere(s.w, e).ips == s.w.ips;
      case Answer(r) => LeftoverCall(s, r);
      case _ =>
    }
  }

  lemma LeftoverCall(s: State, r: Reply)
    requires LeftoverInv(s)
    ensures LeftoverInv(Call(s, r))
  {
    if Call(s, r).pc.RemoveFinalizer? && !s.pc.DeleteRecord? { RecordsFrame(s.w, s.pc); }
  }

  /**
   A record is about to be deleted after the lookup exactly when one was found and the annotations name its interface.
   Whether the object still has the finalizer is not asked.
   */
  lemma DeletesIff(s: State, r: Reply)
    requires s.pc.FindForDelete?
    ensures Call(s, r).pc.DeleteRecord? <==>
            && r == Done
            && var f := LookedUp(s, s.pc.o);
               f.OneFound? && AnnotatedInterface(s.pc.o.ann) == Some(f.rec.iface)
  {
  }

  /** Where a deletion stands after its lookup. */
  predicate After(lookup: Pc, pc: Pc) {
    pc == lookup || (lookup.DeleteRecord? && pc == RemoveFinalizer(lookup.n, lookup.o, Deleted))
  }

  predicate Deleting(pc: Pc) { pc.DeleteRecord? || pc.RemoveFinalizer? }

  lemma LeadsToDeletion(s: State, r: Reply)
    requires Deleting(Call(s, r).pc)
    ensures r == Done && (s.pc.FindForDelete? || (s.pc.DeleteRecord? && After(s.pc, Call(s, r).pc)))
    ensures s.pc.FindForDelete? ==>
              Call(s, r).pc == AfterFindForDelete(s.pc.n, s.pc.o, LookedUp(s, s.pc.o))
              && Call(s, r).pc.n == s.pc.n && Call(s, r).pc.o == s.pc.o
  {
  }

  lemma StepsToDeletion(s: State, a: Action)
    requires Deleting(Step(s, a).pc)
    ensures if a.Answer? then Step(s, a) == Call(s, a.r) else Step(s, a).pc == s.pc
  {
  }

  lemma AfterAfter(lookup: Pc, mid: Pc, pc: Pc)
    requires After(lookup, mid) && (mid == pc || (mid.DeleteRecord? && After(mid, pc)))
    ensures After(lookup, pc) && pc.Idle? == mid.Idle?
    ensures Deleting(mid) ==> pc.n == mid.n && pc.o == mid.o
  {
  }

  /** Behind every deletion is its lookup, answered earlier in the run. */
  lemma {:induction false} LookupBehind(s0: State, acts: seq<Action>) returns (j: nat)
    requires s0.pc.Idle? && Deleting(Run(s0, acts).pc)
    ensures j < |acts| && acts[j] == Answer(Done)
    ensures var before, pc := Run(s0, acts[..j]), Run(s0, acts).pc;
            && before.pc == FindForDelete(pc.n, pc.o)
            && After(AfterFindForDelete(pc.n, pc.o, LookedUp(before, pc.o)), pc)
  {
    hide Step, Call, AfterFindForDelete, LookedUp;
    var front, a := acts[..|acts| - 1], acts[|acts| - 1];
    var s := Run(s0, front);
    StepsToDeletion(s, a);
    if a.Answer? { LeadsToDeletion(s, a.r); }
    if a.Answer? && s.pc.FindForDelete? {
      j := |acts| - 1;
    } else {
      j := LookupBehind(s0, front);
      assert front[..j] == acts[..j];
      AfterAfter(AfterFindForDelete(s.pc.n, s.pc.o, LookedUp(Run(s0, acts[..j]), s.pc.o)), s.pc, Run(s0, acts).pc);
    }
  }

  lemma LeakByBranch(s0: State, acts: seq<Action>)
    requires s0.pc.Idle? && NoOutsidePlacing(acts) && NoOutsideDrops(acts)
    requires Run(s0, acts).pc.RemoveFinalizer?
    ensures var s := Run(s0, acts);
            Matching(s.w.ips, KeyOf(s.pc.o)) != {} <==> s.pc.why.Unannotated? || s.pc.why.OtherInterface?
  {
    LeakRun(s0, acts);
    LeftoverRun(s0, acts);
  }

  /**
   Exactly when a deletion leaves a NetBox record of the object's address behind, with no outside edits of the records:
   at the moment the finalizer is dropped a record remains if and only if the lookup of this deletion, the call number j
   of the run, found one, and the annotations are missing or unparsable, or name another interface than that record's.
   */
  lemma LeakIff(s0: State, acts: seq<Action>) returns (j: nat)
    requires s0.pc.Idle? && NoOutsidePlacing(acts) && NoOutsideDrops(acts)
    requires Run(s0, acts).pc.RemoveFinalizer?
    ensures j < |acts| && acts[j] == Answer(Done)
    ensures var s, lookup := Run(s0, acts), Run(s0, acts[..j]);
            && lookup.pc == FindForDelete(s.pc.n, s.pc.o)
            && var f, k := LookedUp(lookup, s.pc.o), AnnotatedInterface(s.pc.o.ann);
               Matching(s.w.ips, KeyOf(s.pc.o)) != {} <==> f.OneFound? && (k.None? || k.value != f.rec.iface)
  {
    LeakByBranch(s0, acts);
    j := LookupBehind(s0, acts);
  }

  // ---------- an object that was synced once leaves nothing on its interface ----------

  /** Both annotations are written together, each as a printed id. */
  ghost predicate Printed(ann: Annotations) {
    && (DeviceKey in ann <==> InterfaceKey in ann)
    && (DeviceKey in ann ==> exists d: Id :: ann[DeviceKey] == Itoa(d))
    && (InterfaceKey in ann ==> exists i: Id :: ann[InterfaceKey] == Itoa(i))
  }

  ghost predicate SyncInv(s: State) {
    && (forall n, m | n in s.w.objs && m in s.w.objs && s.w.objs[n].uid == s.w.objs[m].uid :: n == m)
    && (forall n | n in s.w.objs :: s.w.objs[n].uid < s.w.nextUid && Printed(s.w.objs[n].ann))
    && (forall u: nat, c: Cidr, i: Id | Annotated(u, c, i) in s.facts :: u < s.w.nextUid)
    && (forall n, c: Cidr, i: Id | n in s.w.objs && Annotated(s.w.objs[n].uid, c, i) in s.facts ::
          InterfaceKey in s.w.objs[n].ann)
  }

  /** The two objects are one object whose device and interface annotations did not change. */
  predicate SameMarks(a: Obj, b: Obj) {
    a.uid == b.uid && SameAt(a.ann, b.ann, DeviceKey) && SameAt(a.ann, b.ann, InterfaceKey)
  }

  ghost predicate Carried(w: World, w': World) {
    w.nextUid == w'.nextUid && forall n | n in w'.objs :: n in w.objs && SameMarks(w.objs[n], w'.objs[n])
  }

  lemma SyncCarried(s: State, w': World)
    requires SyncInv(s) && Carried(s.w, w')
    ensures SyncInv(s.(w := w'))
  {
    forall n | n in w'.objs ensures Printed(w'.objs[n].ann) { assert Printed(s.w.objs[n].ann); }
  }

  lemma SyncCreate(s: State, e: Env)
    requires SyncInv(s) && e.CreateObject?
    ensures SyncInv(s.(w := Interfere(s.w, e)))
  {
    var w' := Interfere(s.w, e);
    if w' != s.w {
      assert forall m | m in w'.objs && m != e.n :: m in s.w.objs && w'.objs[m] == s.w.objs[m];
      assert Printed(w'.objs[e.n].ann);
    }
  }

  lemma SyncInterfere(s: State, e: Env)
    requires SyncInv(s) && !e.EditSpec?
    ensures SyncInv(s.(w := Interfere(s.w, e)))
  {
    if e.CreateObject? {
      SyncCreate(s, e);
    } else {
      InterfereCarried(s.w, e);
      SyncCarried(s, Interfere(s.w, e));
    }
  }

  lemma StoredCarried(w: World, n: string, o: Obj)
    requires n in w.objs && SameMarks(w.objs[n], o)
    ensures Carried(w, StoreObj(w, n, o))
  {
  }

  lemma InterfereCarried(w: World, e: Env)
    requires !e.EditSpec? && !e.CreateObject?
    ensures Carried(w, Interfere(w, e))
  {
    if e.DeleteObject? {
      if e.n in w.objs { StoredCarried(w, e.n, w.objs[e.n].(deleting := true)); }
    } else if e.SetFinalizers? {
      if e.n in w.objs { StoredCarried(w, e.n, w.objs[e.n].(finalizers := e.finalizers)); }
    } else if e.SetAnnotations? {
      if e.n in w.objs && OursUnchanged(w.objs[e.n].ann, e.ann) { StoredCarried(w, e.n, w.objs[e.n].(ann := e.ann)); }
    }
  }

  lemma MetadataPrinted(o: Obj, stored: Obj, dev: Device, iface: Interface)
    requires OursUnchanged(o.ann, stored.ann)
    ensures var ann := Apply(stored.ann, Diff(o.ann, WithMetadata(o.ann, dev, iface)));
            Printed(ann) && InterfaceKey in ann
  {
    var changed := WithMetadata(o.ann, dev, iface);
    PatchArrives(o.ann, changed, stored.ann, InterfaceKey);
    PatchArrives(o.ann, changed, stored.ann, DeviceKey);
    var ann := Apply(stored.ann, Diff(o.ann, changed));
    assert ann[DeviceKey] == Itoa(dev.id) && ann[InterfaceKey] == Itoa(iface.id);
  }

  /** One object gets both annotations, and the history learns that it did. */
  lemma SyncPatched(s: State, w': World, n: string, f: Fact)
    requires SyncInv(s) && n in s.w.objs && n in w'.objs && w'.nextUid == s.w.nextUid
    requires forall m | m in w'.objs && m != n :: m in s.w.objs && w'.objs[m] == s.w.objs[m]
    requires w'.objs[n].uid == s.w.objs[n].uid && Printed(w'.objs[n].ann) && InterfaceKey in w'.objs[n].ann
    requires f.Annotated? && f.uid == s.w.objs[n].uid
    ensures SyncInv(State(w', Idle, s.facts + {f}))
  {
  }

  lemma SyncMetadata(s: State)
    requires Inv(s) && SyncInv(s) && s.pc.PatchMetadata?
    ensures SyncInv(State(Effect(s.w, s.pc), Idle, s.facts + Learned(s)))
  {
    MetadataPrinted(s.pc.o, s.w.objs[s.pc.n], s.pc.dev, s.pc.iface);
    SyncPatched(s, Effect(s.w, s.pc), s.pc.n, Annotated(s.pc.o.uid, KeyOf(s.pc.o), s.pc.iface.id));
  }

  lemma ConflictCarried(s: State)
    requires Inv(s) && s.pc.PatchConflict?
    ensures Carried(s.w, Effect(s.w, s.pc))
  {
    var base, changed, stored := s.pc.o.ann, WithConflict(s.pc.o.ann, s.pc.kind), s.w.objs[s.pc.n].ann;
    PatchEffect(base, changed, stored, InterfaceKey);
    PatchEffect(base, changed, stored, DeviceKey);
  }

  lemma SyncEffect(s: State)
    requires Inv(s) && SyncInv(s) && !s.pc.PatchMetadata?
    ensures SyncInv(s.(w := Effect(s.w, s.pc)))
  {
    if s.pc.PatchConflict? { ConflictCarried(s); }
    SyncCarried(s, Effect(s.w, s.pc));
  }

  lemma SyncCall(s: State, r: Reply)
    requires Inv(s) && SyncInv(s)
    ensures SyncInv(Call(s, r))
  {
    if s.pc.PatchMetadata? {
      SyncMetadata(s);
    } else {
      SyncEffect(s);
      assert forall f | f in Learned(s) :: f.Assigned?;
    }
  }

  lemma SyncStep(s: State, a: Action)
    requires Inv(s) && SyncInv(s) && !(a.Other? && a.e.EditSpec?)
    ensures SyncInv(Step(s, a))
  {
    match a {
      case Other(e) => SyncInterfere(s, e);
      case Answer(r) => SyncCall(s, r);
      case _ =>
    }
  }

  lemma {:induction false} SyncRun(s: State, acts: seq<Action>)
    requires Inv(s) && SyncInv(s) && SpecsImmutable(acts)
    ensures SyncInv(Run(s, acts))
  {
    if acts != [] {
      SyncRun(s, acts[..|acts| - 1]);
      RunInv(s, acts[..|acts| - 1]);
      SyncStep(Run(s, acts[..|acts| - 1]), acts[|acts| - 1]);
    }
  }

  lemma PrintedInterface(o: Obj)
    requires Printed(o.ann) && InterfaceKey in o.ann
    ensures AnnotatedInterface(o.ann).Some?
  {
    var d: Id :| o.ann[DeviceKey] == Itoa(d);
    var k: Id :| o.ann[InterfaceKey] == Itoa(k);
    AtoiItoa(d);
    AtoiItoa(k);
  }

  /** Distinct objects have distinct uids, below the next one. */
  predicate UidsDistinct(w: World) {
    && (forall n, m | n in w.objs && m in w.objs && w.objs[n].uid == w.objs[m].uid :: n == m)
    && (forall n | n in w.objs :: w.objs[n].uid < w.nextUid)
  }

  /**
   An object that completed a reconcile once, deleted in a run in which nobody outside places records, never leaves
   a record behind on its annotated interface: when its finalizer is dropped, its annotations name an interface and no
   record of its address is there.
   */
  lemma SyncedObjectsDoNotLeak(s0: State, acts: seq<Action>, c: Cidr, i: Id)
    requires Fresh(s0) && UidsDistinct(s0.w) && SpecsImmutable(acts) && NoOutsidePlacing(acts)
    requires Run(s0, acts).pc.RemoveFinalizer? && Annotated(Run(s0, acts).pc.o.uid, c, i) in Run(s0, acts).facts
    ensures var s := Run(s0, acts);
            && s.pc.n in s.w.objs && s.w.objs[s.pc.n].uid == s.pc.o.uid
            && AnnotatedInterface(s.w.objs[s.pc.n].ann).Some?
            && ClearOf(s.w.ips, KeyOf(s.pc.o), AnnotatedInterface(s.w.objs[s.pc.n].ann).value)
  {
    SyncRun(s0, acts);
    RunInv(s0, acts);
    LeakRun(s0, acts);
    var s := Run(s0, acts);
    PrintedInterface(s.w.objs[s.pc.n]);
    assert AnnotatedInterface(s.pc.o.ann) == AnnotatedInterface(s.w.objs[s.pc.n].ann);
    if s.pc.why.NotFound? || s.pc.why.Deleted? { NoneMatch(s.w.ips, KeyOf(s.pc.o)); }
  }
}
