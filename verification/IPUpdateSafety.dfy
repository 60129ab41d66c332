/**
 What every run of the IPUpdate controller keeps, whatever users, NetBox administrators and failures do:
 a record is deleted only if an earlier reconcile of the same object had it on the annotated interface.
 */
module IPUpdateSafety {
  import opened Wrappers
  import opened Decimal
  import opened Netbox
  import opened MergePatch
  import opened IPUpdate

  // ---------- the invariant ----------

  /** A stored interface annotation is the printed id of an interface the history vouches for. */
  ghost predicate Backed(o: Obj, facts: set<Fact>) {
    InterfaceKey in o.ann ==>
      exists i: Id :: Annotated(o.uid, KeyOf(o), i) in facts && o.ann[InterfaceKey] == Itoa(i)
  }

  /** The copy a reconcile holds is still the stored object, as far as this controller's fields go. */
  predicate Held(w: World, n: string, o: Obj) {
    && n in w.objs
    && w.objs[n].uid == o.uid && w.objs[n].spec == o.spec && OursUnchanged(o.ann, w.objs[n].ann)
    && Ours in w.objs[n].finalizers
  }

  predicate HasCopy(pc: Pc) { !pc.Idle? && !pc.GetObject? }

  /** The calls made for an object that is not being deleted, from the target lookup on. */
  predicate Syncing(pc: Pc) {
    pc.FindDeviceName? || pc.GetDevice? || pc.GetInterfaces? || pc.FindRecord? || pc.GetVrf? || pc.CreateRecord?
    || pc.SetPrimary? || pc.PatchMetadata? || pc.PatchConflict?
  }

  ghost predicate PcInv(w: World, pc: Pc, facts: set<Fact>) {
    && (HasCopy(pc) ==>
          && GetPrefix(pc.o.spec).Some? && Backed(pc.o, facts)
          && (Ours in pc.o.finalizers ==> Held(w, pc.n, pc.o)))
    && (Syncing(pc) || pc.RemoveFinalizer? ==> Ours in pc.o.finalizers)
    && (pc.AddFinalizer? ==> Ours !in pc.o.finalizers)
    && (pc.DeleteRecord? ==> pc.rec.cidr == KeyOf(pc.o) && AnnotatedInterface(pc.o.ann) == Some(pc.rec.iface))
    && (pc.SetPrimary? || pc.PatchMetadata? ==> Assigned(pc.o.uid, KeyOf(pc.o), pc.iface.id) in facts)
  }

  ghost predicate AllBacked(objs: map<string, Obj>, facts: set<Fact>) {
    forall n | n in objs :: Backed(objs[n], facts)
  }

  ghost predicate AnnotatedAreAssigned(facts: set<Fact>) {
    forall u, c, i :: Annotated(u, c, i) in facts ==> Assigned(u, c, i) in facts
  }

  ghost predicate Inv(s: State) {
    AllBacked(s.w.objs, s.facts) && PcInv(s.w, s.pc, s.facts) && AnnotatedAreAssigned(s.facts)
  }

  /** A fresh start: nothing has been reconciled yet. */
  predicate Fresh(s: State) {
    && s.pc.Idle? && s.facts == {}
    && forall n | n in s.w.objs :: Ours !in s.w.objs[n].finalizers && OursUnchanged(map[], s.w.objs[n].ann)
  }

  predicate SpecsImmutable(acts: seq<Action>) {
    forall i | 0 <= i < |acts| :: !(acts[i].Other? && acts[i].e.EditSpec?)
  }

  // ---------- it is kept by every step ----------

  lemma InterfereBacked(s: State, e: Env)
    requires Inv(s) && !e.EditSpec?
    ensures AllBacked(Interfere(s.w, e).objs, s.facts)
  {
    var w, w' := s.w, Interfere(s.w, e);
    forall n | n in w'.objs ensures Backed(w'.objs[n], s.facts) {
      if n in w.objs { assert Backed(w.objs[n], s.facts); }
    }
  }

  /** Nobody takes an object away, or changes what this controller wrote, while its finalizer is on it. */
  lemma InterfereHeld(w: World, e: Env, n: string, o: Obj)
    requires Held(w, n, o) && !e.EditSpec?
    ensures Held(Interfere(w, e), n, o)
  {
  }

  lemma InterfereInv(s: State, e: Env)
    requires Inv(s) && !e.EditSpec?
    ensures Inv(s.(w := Interfere(s.w, e)))
  {
    InterfereBacked(s, e);
    if HasCopy(s.pc) && Held(s.w, s.pc.n, s.pc.o) { InterfereHeld(s.w, e, s.pc.n, s.pc.o); }
  }

  lemma AnnotatedRoundTrip(o: Obj, facts: set<Fact>)
    requires Backed(o, facts) && AnnotatedInterface(o.ann).Some?
    ensures var i := AnnotatedInterface(o.ann).value; 1 <= i <= MAX_INT && Annotated(o.uid, KeyOf(o), i) in facts
  {
    var i: Id :| Annotated(o.uid, KeyOf(o), i) in facts && o.ann[InterfaceKey] == Itoa(i);
    AtoiItoa(i);
  }

  lemma BackedMono(objs: map<string, Obj>, facts: set<Fact>, more: set<Fact>)
    requires AllBacked(objs, facts) && facts <= more
    ensures AllBacked(objs, more)
  {
    forall n | n in objs ensures Backed(objs[n], more) { assert Backed(objs[n], facts); }
  }

  /** The metadata patch leaves exactly the printed target interface behind. */
  lemma MetadataBacked(s: State)
    requires Inv(s) && s.pc.PatchMetadata?
    ensures AllBacked(Effect(s.w, s.pc).objs, s.facts + Learned(s))
  {
    var n, o, iface := s.pc.n, s.pc.o, s.pc.iface;
    var changed := WithMetadata(o.ann, s.pc.dev, iface);
    var stored := s.w.objs[n];
    var facts := s.facts + Learned(s);
    PatchArrives(o.ann, changed, stored.ann, InterfaceKey);
    var patched := stored.(ann := Apply(stored.ann, Diff(o.ann, changed)));
    assert patched.ann[InterfaceKey] == Itoa(iface.id) && Annotated(o.uid, KeyOf(o), iface.id) in facts;
    BackedMono(s.w.objs, s.facts, facts);
    assert Backed(patched, facts);
  }

  lemma EffectBacked(s: State)
    requires Inv(s)
    ensures AllBacked(Effect(s.w, s.pc).objs, s.facts + Learned(s))
  {
    var w, w' := s.w, Effect(s.w, s.pc);
    BackedMono(w.objs, s.facts, s.facts + Learned(s));
    if s.pc.PatchMetadata? {
      MetadataBacked(s);
    } else {
      forall n | n in w'.objs ensures Backed(w'.objs[n], s.facts + Learned(s)) {
        assert Backed(w.objs[n], s.facts + Learned(s));
        if s.pc.PatchConflict? {
          PatchEffect(s.pc.o.ann, WithConflict(s.pc.o.ann, s.pc.kind), w.objs[s.pc.n].ann, InterfaceKey);
        }
      }
    }
  }

  lemma FactsInv(s: State)
    requires Inv(s)
    ensures AnnotatedAreAssigned(s.facts + Learned(s))
  {
  }

  lemma BackedStays(s: State)
    requires Inv(s) && HasCopy(s.pc)
    ensures Backed(s.pc.o, s.facts + Learned(s))
  {
  }

  /** A patch of this controller leaves the object it patches held, unless it removes the finalizer. */
  lemma EffectHeld(s: State)
    requires Inv(s) && HasCopy(s.pc) && Ours in s.pc.o.finalizers
    requires !s.pc.PatchMetadata? && !s.pc.PatchConflict? && !s.pc.RemoveFinalizer?
    ensures Held(Effect(s.w, s.pc), s.pc.n, s.pc.o)
  {
  }

  lemma ThenFindForDelete(s: State)
    requires Inv(s) && s.pc.FindForDelete?
    ensures PcInv(Effect(s.w, s.pc), Then(s), s.facts + Learned(s))
  {
  }

  lemma ThenFindRecord(s: State)
    requires Inv(s) && s.pc.FindRecord?
    ensures PcInv(Effect(s.w, s.pc), Then(s), s.facts + Learned(s))
  {
    BackedStays(s);
  }

  /** The next call's copy and locals satisfy the invariant. */
  lemma ThenInv(s: State)
    requires Inv(s)
    ensures PcInv(Effect(s.w, s.pc), Then(s), s.facts + Learned(s))
  {
    if s.pc.FindForDelete? {
      ThenFindForDelete(s);
    } else if s.pc.FindRecord? {
      ThenFindRecord(s);
    } else if s.pc.GetObject? {
      if s.pc.n in s.w.objs { assert Backed(s.w.objs[s.pc.n], s.facts); }
    } else if HasCopy(s.pc) && HasCopy(Then(s)) {
      BackedStays(s);
      if Ours in s.pc.o.finalizers { EffectHeld(s); }
    }
  }

  lemma CallInv(s: State, r: Reply)
    requires Inv(s)
    ensures Inv(Call(s, r))
  {
    if r != Refused {
      EffectBacked(s);
      FactsInv(s);
      if r == Done { ThenInv(s); }
      if s.pc.FindRecord? { assert Effect(s.w, s.pc) == s.w; }
    }
  }

  lemma StepInv(s: State, a: Action)
    requires Inv(s) && !(a.Other? && a.e.EditSpec?)
    ensures Inv(Step(s, a))
  {
    match a {
      case Other(e) => InterfereInv(s, e);
      case Answer(r) => CallInv(s, r);
      case _ =>
    }
  }

  lemma {:induction false} RunInv(s: State, acts: seq<Action>)
    requires Inv(s) && SpecsImmutable(acts)
    ensures Inv(Run(s, acts))
  {
    if acts != [] {
      RunInv(s, acts[..|acts| - 1]);
      StepInv(Run(s, acts[..|acts| - 1]), acts[|acts| - 1]);
    }
  }

  // ---------- where facts come from ----------

  /** The step in which a reconcile of `uid` saw, or created, the record of that address on that interface. */
  ghost predicate FoundOrCreated(before: State, a: Action, uid: nat, c: Cidr, iface: Id) {
    && (before.pc.FindRecord? || before.pc.CreateRecord?)
    && before.pc.o.uid == uid && KeyOf(before.pc.o) == c && before.pc.iface.id == iface
    && a.Answer? && a.r != Refused
    && exists id :: id in Step(before, a).w.ips && Step(before, a).w.ips[id].cidr == c && Step(before, a).w.ips[id].iface == iface
  }

  /** The step in which that reconcile stored the interface in the object's annotations, its last call. */
  ghost predicate Recorded(before: State, a: Action, uid: nat, c: Cidr, iface: Id) {
    && before.pc.PatchMetadata?
    && before.pc.o.uid == uid && KeyOf(before.pc.o) == c && before.pc.iface.id == iface
    && a.Answer? && a.r != Refused
    && Held(before.w, before.pc.n, before.pc.o)
    && var after := Step(before, a).w.objs; before.pc.n in after && AnnotatedInterface(after[before.pc.n].ann) == Some(iface)
  }

  lemma {:induction false} FactOrigin(s0: State, acts: seq<Action>, f: Fact) returns (j: nat)
    requires f in Run(s0, acts).facts && f !in s0.facts
    ensures j < |acts| && acts[j].Answer? && acts[j].r != Refused
    ensures f in Learned(Run(s0, acts[..j])) && f in Run(s0, acts[..j + 1]).facts
  {
    var front := acts[..|acts| - 1];
    if f in Run(s0, front).facts {
      j := FactOrigin(s0, front, f);
      assert front[..j] == acts[..j] && front[..j + 1] == acts[..j + 1];
    } else {
      j := |acts| - 1;
      assert acts[..j + 1] == acts;
    }
  }

  lemma LearnedAssigned(s: State, r: Reply, u: nat, c: Cidr, i: Id)
    requires Inv(s) && r != Refused && Assigned(u, c, i) in Learned(s)
    ensures FoundOrCreated(s, Answer(r), u, c, i)
  {
    var s' := Step(s, Answer(r));
    if s.pc.CreateRecord? {
      assert s.w.nextIp in s'.w.ips;
    } else {
      var id := LookedUp(s, s.pc.o).id;
      assert id in Matching(s.w.ips, c);
      assert id in s'.w.ips;
    }
  }

  lemma LearnedAnnotated(s: State, r: Reply, u: nat, c: Cidr, i: Id)
    requires Inv(s) && r != Refused && Annotated(u, c, i) in Learned(s)
    ensures Recorded(s, Answer(r), u, c, i)
  {
    var o, stored := s.pc.o, s.w.objs[s.pc.n];
    var changed := WithMetadata(o.ann, s.pc.dev, s.pc.iface);
    PatchArrives(o.ann, changed, stored.ann, InterfaceKey);
    PatchArrives(o.ann, changed, stored.ann, DeviceKey);
    AtoiItoa(s.pc.iface.id);
    AtoiItoa(s.pc.dev.id);
  }

  // ---------- deletion safety ----------

  lemma StepPrefix(s0: State, acts: seq<Action>, j: nat)
    requires j < |acts|
    ensures Run(s0, acts[..j + 1]) == Step(Run(s0, acts[..j]), acts[j])
  {
    assert acts[..j + 1][..j] == acts[..j];
  }

  /** An interface the history has as annotated was first found or created by a reconcile of the object, then recorded. */
  lemma {:induction false} AnnotationHistory(s0: State, acts: seq<Action>, u: nat, c: Cidr, k: Id) returns (i: nat, j: nat)
    requires Fresh(s0) && SpecsImmutable(acts) && Annotated(u, c, k) in Run(s0, acts).facts
    ensures i < j < |acts|
    ensures FoundOrCreated(Run(s0, acts[..i]), acts[i], u, c, k)
    ensures Recorded(Run(s0, acts[..j]), acts[j], u, c, k)
  {
    j := FactOrigin(s0, acts, Annotated(u, c, k));
    RunInv(s0, acts[..j]);
    LearnedAnnotated(Run(s0, acts[..j]), acts[j].r, u, c, k);
    i := FactOrigin(s0, acts[..j], Assigned(u, c, k));
    assert acts[..j][..i] == acts[..i];
    RunInv(s0, acts[..i]);
    LearnedAssigned(Run(s0, acts[..i]), acts[i].r, u, c, k);
  }

  /**
   Over every run with crashes, refused and lost calls, user deletions and NetBox edits: when a reconcile is about
   to delete a record, what it read has exactly the object's address and prefix length, and lies on an interface
   that an earlier reconcile of the same object had that address on and afterwards stored in its annotations.
   */
  lemma {:induction false} DeletionSafety(s0: State, acts: seq<Action>)
    requires Fresh(s0) && SpecsImmutable(acts) && Run(s0, acts).pc.DeleteRecord?
    ensures var pc := Run(s0, acts).pc;
            && pc.rec.cidr == KeyOf(pc.o)
            && exists i, j | 0 <= i < j < |acts| ::
                 && FoundOrCreated(Run(s0, acts[..i]), acts[i], pc.o.uid, KeyOf(pc.o), pc.rec.iface)
                 && Recorded(Run(s0, acts[..j]), acts[j], pc.o.uid, KeyOf(pc.o), pc.rec.iface)
  {
    RunInv(s0, acts);
    var s := Run(s0, acts);
    AnnotatedRoundTrip(s.pc.o, s.facts);
    var i, j := AnnotationHistory(s0, acts, s.pc.o.uid, KeyOf(s.pc.o), s.pc.rec.iface);
  }

  // ---------- from the lookup to the delete ----------

  predicate LeavesRecord(a: Action, id: Id) {
    a.Other? && !(a.e.MoveRecord? && a.e.id == id) && !(a.e.ReaddressRecord? && a.e.id == id)
  }

  /** The record the delete call will hit is still the one that was read, if it is there at all. */
  predicate AsRead(s: State) {
    && s.pc.DeleteRecord? && s.pc.id < s.w.nextIp
    && (s.pc.id in s.w.ips ==> s.w.ips[s.pc.id] == s.pc.rec)
  }

  predicate IdsAllocated(w: World) { forall id | id in w.ips :: id < w.nextIp }

  lemma LookupReads(s: State)
    requires IdsAllocated(s.w) && s.pc.FindForDelete? && Call(s, Done).pc.DeleteRecord?
    ensures AsRead(Call(s, Done))
    ensures var rec := Call(s, Done).pc.rec;
            rec.cidr == KeyOf(s.pc.o) && AnnotatedInterface(s.pc.o.ann) == Some(rec.iface)
  {
    var id := LookedUp(s, s.pc.o).id;
    assert id in Matching(s.w.ips, KeyOf(s.pc.o));
  }

  lemma LeavesAsRead(s: State, a: Action)
    requires AsRead(s) && LeavesRecord(a, s.pc.id)
    ensures AsRead(Step(s, a)) && Step(s, a).pc == s.pc
  {
  }

  /** As long as nobody edits that one record between the lookup and the delete, exactly the record that was read is deleted. */
  lemma {:induction false} DeletesWhatItRead(s: State, acts: seq<Action>)
    requires AsRead(s) && forall i | 0 <= i < |acts| :: LeavesRecord(acts[i], s.pc.id)
    ensures AsRead(Run(s, acts)) && Run(s, acts).pc == s.pc
  {
    if acts != [] {
      DeletesWhatItRead(s, acts[..|acts| - 1]);
      LeavesAsRead(Run(s, acts[..|acts| - 1]), acts[|acts| - 1]);
    }
  }

  /**
   From the lookup to the delete: as long as nobody edits the record that was found, the delete removes exactly that
   record, with the address and on the interface it was found with, or nothing at all.
   */
  lemma LookupToDelete(s: State, acts: seq<Action>, r: Reply)
    requires IdsAllocated(s.w) && s.pc.FindForDelete? && Call(s, Done).pc.DeleteRecord?
    requires forall i | 0 <= i < |acts| :: LeavesRecord(acts[i], Call(s, Done).pc.id)
    ensures var pc := Call(s, Done).pc;
            var before := Run(Call(s, Done), acts);
            var after := Step(before, Answer(r));
            && pc.rec.cidr == KeyOf(s.pc.o) && AnnotatedInterface(s.pc.o.ann) == Some(pc.rec.iface)
            && before.pc == pc && (pc.id in before.w.ips ==> before.w.ips[pc.id] == pc.rec)
            && after.w.ips == if r == Refused then before.w.ips else before.w.ips - {pc.id}
  {
    hide Call, Step;
    LookupReads(s);
    DeletesWhatItRead(Call(s, Done), acts);
    DeleteEffect(Run(Call(s, Done), acts), r);
  }

  lemma DeleteEffect(s: State, r: Reply)
    requires s.pc.DeleteRecord?
    ensures Step(s, Answer(r)).w.ips == if r == Refused then s.w.ips else s.w.ips - {s.pc.id}
  {
  }

  /** So is a record moved to another interface after the lookup. */
  lemma MovedRecordIsDeleted(s: State, iface: Id)
    requires s.pc.DeleteRecord? && s.pc.id in s.w.ips
    ensures var edited := Step(s, Other(MoveRecord(s.pc.id, iface)));
            && edited.pc == s.pc && edited.w.ips[s.pc.id].iface == iface
            && Step(edited, Answer(Done)).w.ips == edited.w.ips - {s.pc.id}
  {
  }

  /** The proviso is needed: a record re-addressed after the lookup is deleted under its new address. */
  lemma EditedRecordIsDeleted(s: State, other: Cidr)
    requires s.pc.DeleteRecord? && s.pc.id in s.w.ips && other != KeyOf(s.pc.o)
    ensures var edited := Step(s, Other(ReaddressRecord(s.pc.id, other)));
            && edited.pc == s.pc && edited.w.ips[s.pc.id].cidr == other
            && Step(edited, Answer(Done)).w.ips == edited.w.ips - {s.pc.id}
  {
  }

  /**
   So is the immutability of the address: if the address of an annotated object could be edited, deleting the object
   would delete a record of the new address that no reconcile of the object ever had.
   */
  lemma {:induction false} EditedAddressDeletes(s: State, n: string, spec: Spec, id: Id)
    requires s.pc.Idle? && n in s.w.objs && s.w.objs[n].deleting && Ours in s.w.objs[n].finalizers
    requires GetPrefix(spec).Some? && Matching(s.w.ips, GetPrefix(spec).value) == {id}
    requires AnnotatedInterface(s.w.objs[n].ann) == Some(s.w.ips[id].iface)
    requires Assigned(s.w.objs[n].uid, GetPrefix(spec).value, s.w.ips[id].iface) !in s.facts
    ensures var end := Run(s, [Other(EditSpec(n, spec)), Begin(n), Answer(Done), Answer(Done)]);
            && end.pc.DeleteRecord? && end.pc.id == id && end.pc.o.uid == s.w.objs[n].uid
            && Assigned(end.pc.o.uid, end.pc.rec.cidr, end.pc.rec.iface) !in end.facts
  {
    var s1 := Step(s, Other(EditSpec(n, spec)));
    var s2 := Step(s1, Begin(n));
    var s3 := Step(s2, Answer(Done));
    var s4 := Step(s3, Answer(Done));
    LookupExact(s.w.ips, GetPrefix(spec).value, id);
    assert id in Matching(s.w.ips, GetPrefix(spec).value);
    Run4(s, Other(EditSpec(n, spec)), Begin(n), Answer(Done), Answer(Done));
  }

  // ---------- what is recorded ----------

  lemma CopyHeld(s0: State, acts: seq<Action>)
    requires Fresh(s0) && SpecsImmutable(acts) && Syncing(Run(s0, acts).pc)
    ensures var s := Run(s0, acts); Held(s.w, s.pc.n, s.pc.o)
  {
    RunInv(s0, acts);
    hide Run, Backed, Held;
  }

  /** Whatever others did since the object was read: the metadata patch leaves exactly this. */
  lemma MetadataArrives(s0: State, acts: seq<Action>, r: Reply)
    requires Fresh(s0) && SpecsImmutable(acts) && Run(s0, acts).pc.PatchMetadata? && r != Refused
    ensures var s, t := Run(s0, acts), Step(Run(s0, acts), Answer(r));
            && s.pc.n in s.w.objs && s.pc.n in t.w.objs
            && var o, o' := s.w.objs[s.pc.n], t.w.objs[s.pc.n];
               && t.w == s.w.(objs := s.w.objs[s.pc.n := o.(ann := o'.ann)]) && o' == o.(ann := o'.ann)
               && Names(o'.ann, s.pc.dev.id, s.pc.iface.id) && OthersKept(o.ann, o'.ann)
  {
    CopyHeld(s0, acts);
    MetadataEffect(Run(s0, acts), r);
  }

  /** The same for the conflict patch. */
  lemma ConflictArrives(s0: State, acts: seq<Action>, r: Reply)
    requires Fresh(s0) && SpecsImmutable(acts) && Run(s0, acts).pc.PatchConflict? && r != Refused
    ensures var s, t := Run(s0, acts), Step(Run(s0, acts), Answer(r));
            && s.pc.n in s.w.objs && s.pc.n in t.w.objs
            && var o, o' := s.w.objs[s.pc.n], t.w.objs[s.pc.n];
               && t.w == s.w.(objs := s.w.objs[s.pc.n := o.(ann := o'.ann)]) && o' == o.(ann := o'.ann)
               && NamesConflict(o.ann, o'.ann, s.pc.kind) && OthersKept(o.ann, o'.ann)
  {
    CopyHeld(s0, acts);
    ConflictEffect(Run(s0, acts), r);
  }

  lemma MetadataEffect(s: State, r: Reply)
    requires s.pc.PatchMetadata? && Held(s.w, s.pc.n, s.pc.o) && r != Refused
    ensures var t, o := Step(s, Answer(r)), s.w.objs[s.pc.n];
            && s.pc.n in t.w.objs && var o' := t.w.objs[s.pc.n];
               && t.w == s.w.(objs := s.w.objs[s.pc.n := o.(ann := o'.ann)]) && o' == o.(ann := o'.ann)
               && Names(o'.ann, s.pc.dev.id, s.pc.iface.id) && OthersKept(o.ann, o'.ann)
  {
    MetadataPatched(s.pc.o.ann, s.w.objs[s.pc.n].ann, s.pc.dev, s.pc.iface);
    hide WithMetadata, Apply, Diff, Names, OthersKept, OursUnchanged, Learned;
  }

  lemma ConflictEffect(s: State, r: Reply)
    requires s.pc.PatchConflict? && Held(s.w, s.pc.n, s.pc.o) && r != Refused
    ensures var t, o := Step(s, Answer(r)), s.w.objs[s.pc.n];
            && s.pc.n in t.w.objs && var o' := t.w.objs[s.pc.n];
               && t.w == s.w.(objs := s.w.objs[s.pc.n := o.(ann := o'.ann)]) && o' == o.(ann := o'.ann)
               && NamesConflict(o.ann, o'.ann, s.pc.kind) && OthersKept(o.ann, o'.ann)
  {
    ConflictPatched(s.pc.o.ann, s.w.objs[s.pc.n].ann, s.pc.kind);
    hide WithConflict, Apply, Diff, NamesConflict, OthersKept, OursUnchanged, Learned;
  }

  lemma MetadataPatched(base: Annotations, stored: Annotations, dev: Device, iface: Interface)
    requires OursUnchanged(base, stored)
    ensures var ann := Apply(stored, Diff(base, WithMetadata(base, dev, iface)));
            Names(ann, dev.id, iface.id) && OthersKept(stored, ann)
  {
    hide Itoa;
  }

  lemma ConflictPatched(base: Annotations, stored: Annotations, kind: string)
    requires OursUnchanged(base, stored)
    ensures var ann := Apply(stored, Diff(base, WithConflict(base, kind)));
            NamesConflict(stored, ann, kind) && OthersKept(stored, ann)
  {
  }

  lemma Run4(s: State, a: Action, b: Action, c: Action, d: Action)
    ensures Run(s, [a, b, c, d]) == Step(Step(Step(Step(s, a), b), c), d)
  {
    assert [a, b, c, d][..3] == [a, b, c] && [a, b, c][..2] == [a, b] && [a, b][..1] == [a] && [a][..0] == [];
    assert Run(s, [a]) == Step(s, a);
    assert Run(s, [a, b]) == Step(Run(s, [a]), b);
    assert Run(s, [a, b, c]) == Step(Run(s, [a, b]), c);
  }
}
