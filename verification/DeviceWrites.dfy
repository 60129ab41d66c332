/**
 The Update and the IPUpdate controller both write whole device records that they read earlier: the one to set
 platform and out-of-band IP, the other to set the primary IPv4 address.  Here are all interleavings of the two.
 */
module DeviceWrites {
  import opened Wrappers
  import opened Netbox

  datatype Who = UpdateController | IPUpdateController

  /** What the two controllers want of the device. */
  datatype Goal = Goal(platform: int, oob: int, primary4: int)

  /** The record a controller sends: the copy it read, with its own fields set. */
  function Written(g: Goal, c: Who, copy: Device): Device {
    match c
    case UpdateController => copy.(platform := g.platform, oob := g.oob)
    case IPUpdateController => copy.(primary4 := g.primary4)
  }

  /** A controller sends nothing when its copy already has what it wants. */
  predicate Needed(g: Goal, c: Who, copy: Device) { Written(g, c, copy) != copy }

  function Store(g: Goal, c: Who, copy: Device, stored: Device): Device {
    if Needed(g, c, copy) then Written(g, c, copy) else stored
  }

  function OtherThan(c: Who): Who { if c.UpdateController? then IPUpdateController else UpdateController }

  /** Two records agree on all fields that a controller leaves alone. */
  predicate AgreeOutside(c: Who, a: Device, b: Device) {
    match c
    case UpdateController => a.(platform := b.platform, oob := b.oob) == b
    case IPUpdateController => a.(primary4 := b.primary4) == b
  }

  /**
   Exactly when sending an older copy does what was meant, to change its own fields and nothing else: nobody changed
   the other fields since the copy was read, or nothing is sent and the fields are still as they were wanted.
   */
  lemma WriteExact(g: Goal, c: Who, copy: Device, stored: Device)
    ensures Store(g, c, copy, stored) == Written(g, c, stored) <==>
            if Needed(g, c, copy) then AgreeOutside(c, copy, stored) else !Needed(g, c, stored)
  {
  }

  // ---------- interleavings ----------

  /** `Drop` is a reconcile that ends between its read and its write; `Edit` is a change by anybody else. */
  datatype Event = Read(c: Who) | Write(c: Who) | Drop(c: Who) | Edit(rest: int)

  /** `stale` remembers whose copy was overtaken by a write of somebody else. */
  datatype State = State(dev: Device, copies: map<Who, Device>, stale: set<Who>)

  function Step(g: Goal, s: State, e: Event): State {
    match e
    case Read(c) => s.(copies := s.copies[c := s.dev], stale := s.stale - {c})
    case Write(c) =>
      if c in s.copies then
        State(Store(g, c, s.copies[c], s.dev), s.copies - {c},
              if Needed(g, c, s.copies[c]) then s.stale + {OtherThan(c)} else s.stale)
      else s
    case Drop(c) => s.(copies := s.copies - {c})
    case Edit(rest) => s.(dev := s.dev.(rest := rest), stale := s.copies.Keys)
  }

  function Run(g: Goal, s: State, events: seq<Event>): State {
    if events == [] then s else Step(g, Run(g, s, events[..|events| - 1]), events[|events| - 1])
  }

  /** No read-write pair is split by a write of somebody else. */
  predicate Unsplit(g: Goal, s: State, events: seq<Event>) {
    events == [] ||
    (var before := Run(g, s, events[..|events| - 1]);
     && Unsplit(g, s, events[..|events| - 1])
     && var e := events[|events| - 1];
        e.Write? && e.c in before.copies ==> e.c !in before.stale)
  }

  function LastEdit(events: seq<Event>, rest: int): int {
    if events == [] then rest
    else if events[|events| - 1].Edit? then events[|events| - 1].rest
    else LastEdit(events[..|events| - 1], rest)
  }

  /** Copies that were not overtaken are the stored record. */
  predicate CopiesFresh(s: State) { forall c | c in s.copies && c !in s.stale :: s.copies[c] == s.dev }

  lemma StepFresh(g: Goal, s: State, e: Event)
    requires CopiesFresh(s)
    ensures CopiesFresh(Step(g, s, e))
  {
    var t := Step(g, s, e);
    forall c | c in t.copies && c !in t.stale ensures t.copies[c] == t.dev {
      assert e.Write? ==> c == e.c || c == OtherThan(e.c);
    }
  }

  /** Who completed a read-write pair. */
  function Wrote(g: Goal, s: State, events: seq<Event>): (r: set<Who>) {
    if events == [] then {}
    else
      var e := events[|events| - 1];
      Wrote(g, s, events[..|events| - 1]) +
      (if e.Write? && e.c in Run(g, s, events[..|events| - 1]).copies then {e.c} else {})
  }

  /**
   With no pair split, any number of passes of both controllers in any order, some of them cut short, leave the
   device with the required fields of whoever completed a pass, the last outside edit, and all other fields as before.
   */
  lemma {:induction false} UnsplitWritesCommute(g: Goal, dev: Device, events: seq<Event>)
    requires Unsplit(g, State(dev, map[], {}), events)
    ensures var s := State(dev, map[], {});
            var done := Wrote(g, s, events);
            && CopiesFresh(Run(g, s, events))
            && Run(g, s, events).dev ==
               dev.(platform := if UpdateController in done then g.platform else dev.platform,
                    oob := if UpdateController in done then g.oob else dev.oob,
                    primary4 := if IPUpdateController in done then g.primary4 else dev.primary4,
                    rest := LastEdit(events, dev.rest))
  {
    if events != [] {
      UnsplitWritesCommute(g, dev, events[..|events| - 1]);
      var s := Run(g, State(dev, map[], {}), events[..|events| - 1]);
      var e := events[|events| - 1];
      StepFresh(g, s, e);
      if e.Write? && e.c in s.copies { assert s.copies[e.c] == s.dev; }
    }
  }

  // ---------- split pairs ----------

  /** The device has what this controller wants of it. */
  predicate Meets(g: Goal, c: Who, dev: Device) { !Needed(g, c, dev) }

  /** The event sends a record. */
  predicate Sends(g: Goal, s: State, e: Event) { e.Write? && e.c in s.copies && Needed(g, e.c, s.copies[e.c]) }

  /** The number of the last event that sends a record. */
  function LastSent(g: Goal, s: State, events: seq<Event>): (j: Option<nat>)
    ensures j.Some? ==> j.value < |events| && Sends(g, Run(g, s, events[..j.value]), events[j.value])
  {
    if events == [] then None
    else if Sends(g, Run(g, s, events[..|events| - 1]), events[|events| - 1]) then Some(|events| - 1)
    else
      var j := LastSent(g, s, events[..|events| - 1]);
      assert j.Some? ==> events[..|events| - 1][..j.value] == events[..j.value];
      j
  }

  /** None after it sends one. */
  lemma {:induction false} LastSentIsLast(g: Goal, s: State, events: seq<Event>, k: nat)
    requires k < |events| && (LastSent(g, s, events).None? || LastSent(g, s, events).value < k)
    ensures !Sends(g, Run(g, s, events[..k]), events[k])
  {
    hide Sends;
    var front := events[..|events| - 1];
    if k < |front| {
      LastSentIsLast(g, s, front, k);
      assert front[..k] == events[..k];
    }
  }

  lemma StepMeets(g: Goal, s: State, e: Event, c: Who)
    ensures Meets(g, c, Step(g, s, e).dev) <==>
            if Sends(g, s, e) then e.c == c || Meets(g, c, s.copies[e.c]) else Meets(g, c, s.dev)
  {
  }

  /**
   What is missing at the end of any sequence of reads, writes, aborted passes and outside edits: a controller's
   requirement is missing if and only if the last record sent was sent by the other controller, from a copy that did not
   have it; or if no record was sent at all, and it was missing from the beginning.
   */
  lemma {:induction false} MissingIff(g: Goal, s: State, events: seq<Event>, c: Who)
    ensures var j := LastSent(g, s, events);
            !Meets(g, c, Run(g, s, events).dev) <==>
            if j.None? then !Meets(g, c, s.dev)
            else && events[j.value].c == OtherThan(c)
                 && !Meets(g, c, Run(g, s, events[..j.value]).copies[OtherThan(c)])
  {
    if events != [] {
      var front, e := events[..|events| - 1], events[|events| - 1];
      MissingIff(g, s, front, c);
      StepMeets(g, Run(g, s, front), e, c);
      var j := LastSent(g, s, front);
      assert j.Some? ==> front[..j.value] == events[..j.value];
    }
  }

  lemma {:induction false} RunFresh(g: Goal, dev: Device, events: seq<Event>)
    ensures CopiesFresh(Run(g, State(dev, map[], {}), events))
  {
    if events != [] {
      RunFresh(g, dev, events[..|events| - 1]);
      StepFresh(g, Run(g, State(dev, map[], {}), events[..|events| - 1]), events[|events| - 1]);
    }
  }

  /** A write takes a requirement away that the device met only if its pair was split. */
  lemma OnlySplitPairsLose(g: Goal, dev: Device, events: seq<Event>, e: Event, c: Who)
    requires var s := Run(g, State(dev, map[], {}), events); Meets(g, c, s.dev) && !Meets(g, c, Step(g, s, e).dev)
    ensures e == Write(OtherThan(c)) && OtherThan(c) in Run(g, State(dev, map[], {}), events).stale
  {
    RunFresh(g, dev, events);
    StepMeets(g, Run(g, State(dev, map[], {}), events), e, c);
  }

  /** The six ways two read-write pairs can interleave; the first two keep the pairs whole. */
  function Interleaving(k: nat): (events: seq<Event>)
    requires k < 6
    ensures |events| == 4
  {
    var u, i := UpdateController, IPUpdateController;
    match k
    case 0 => [Read(u), Write(u), Read(i), Write(i)]
    case 1 => [Read(i), Write(i), Read(u), Write(u)]
    case 2 => [Read(u), Read(i), Write(u), Write(i)]
    case 3 => [Read(u), Read(i), Write(i), Write(u)]
    case 4 => [Read(i), Read(u), Write(u), Write(i)]
    case _ => [Read(i), Read(u), Write(i), Write(u)]
  }

  predicate Satisfied(g: Goal, dev: Device) {
    dev.platform == g.platform && dev.oob == g.oob && dev.primary4 == g.primary4
  }

  lemma Run4(g: Goal, s: State, a: Event, b: Event, c: Event, d: Event)
    ensures Run(g, s, [a, b, c, d]) == Step(g, Step(g, Step(g, Step(g, s, a), b), c), d)
  {
    assert [a, b, c, d][..3] == [a, b, c] && [a, b, c][..2] == [a, b] && [a, b][..1] == [a] && [a][..0] == [];
    assert Run(g, s, [a]) == Step(g, s, a);
    assert Run(g, s, [a, b]) == Step(g, Step(g, s, a), b);
    assert Run(g, s, [a, b, c]) == Step(g, Step(g, Step(g, s, a), b), c);
  }

  /**
   A split pair loses the other controller's change exactly when both had something to write: then one of the two
   requirements is missing at the end, although both writes succeeded.
   */
  lemma SplitLosesIff(g: Goal, dev: Device, k: nat)
    requires k < 6
    ensures Satisfied(g, Run(g, State(dev, map[], {}), Interleaving(k)).dev) <==>
            k < 2 || !Needed(g, UpdateController, dev) || !Needed(g, IPUpdateController, dev)
  {
    var e := Interleaving(k);
    Run4(g, State(dev, map[], {}), e[0], e[1], e[2], e[3]);
    assert e == [e[0], e[1], e[2], e[3]];
  }
}
