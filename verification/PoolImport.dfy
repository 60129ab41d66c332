/**
 The IPPoolImport controller: pool names, pool contents, and the create-once import of every
 prefix of every selector.
 */
module PoolImport {
  import opened Wrappers
  import opened Decimal
  import opened IPv4

  const TRANSIT_ROLE := "kubernetes-compute-transit"

  datatype Selector = Selector(
    namePrefix: string, nameOverride: string, region: string, role: string,
    excludeMask: Option<int>, excludedAddresses: Option<seq<string>>, excludeLastN: Option<int>)

  /**
   A NetBox prefix.  `prefix` is None when its text does not parse; `computeDigits` is what the first
   match of "compute" followed by digits captures in the VLAN name, None when nothing matches.
   */
  datatype NbPrefix = NbPrefix(prefix: Option<Prefix>, roleSlug: string, siteSlug: string, computeDigits: Option<string>)

  datatype Excluded = Block(net: Addr, mask: int) | Listed(text: string) | Single(addr: nat)

  datatype Pool = Pool(addresses: Prefix, gateway: Option<Addr>, mask: int, excluded: seq<Excluded>)

  datatype Job = Job(sel: Selector, pfx: NbPrefix)

  // ---------- names ----------

  function LowerChar(c: char): char { if 'A' <= c <= 'Z' then c + 32 as char else c }

  function ToLower(s: string): string { seq(|s|, i requires 0 <= i < |s| => LowerChar(s[i])) }

  function TrimPrefix(s: string, prefix: string): string { if prefix <= s then s[|prefix|..] else s }

  predicate HasInfix(s: string, sub: string) { exists i | 0 <= i <= |s| :: sub <= s[i..] }

  function TransitName(sel: Selector, az: string, num: int): string {
    sel.namePrefix + "-" + az + Itoa(num - 1) + "-" + ToLower(sel.region)
  }

  /** `generateIPPoolName`; None is the error of a compute number that does not fit an int. */
  function GenerateName(sel: Selector, p: NbPrefix): Option<string> {
    if sel.nameOverride != "" then Some(sel.nameOverride)
    else if HasInfix(p.roleSlug, TRANSIT_ROLE) && p.computeDigits.Some? then
      match Atoi(p.computeDigits.value)
      case None => None
      case Some(num) => Some(TransitName(sel, TrimPrefix(p.siteSlug, ToLower(sel.region)), num))
    else Some(sel.namePrefix + "-" + p.siteSlug)
  }

  /** `lower` is the region in lower case, ASCII letters only. */
  predicate InLowerCase(region: string, lower: string) {
    && |lower| == |region|
    && forall i | 0 <= i < |region| ::
         if 'A' <= region[i] <= 'Z' then lower[i] as int == region[i] as int + 32 else lower[i] == region[i]
  }

  /** The text is in s, with anything before and after. */
  ghost predicate IsWithin(s: string, text: string) { exists a, b :: s == a + text + b }

  /**
   The name of a pool.  An override is the name.  A compute-transit prefix with a compute number, which has to fit an int,
   is named by the rest of its site after the region, or the whole site if it does not begin with the region, and the number
   less one.  Any other is named by its site.
   */
  lemma NameMeaning(sel: Selector, p: NbPrefix, lower: string, az: string)
    requires InLowerCase(sel.region, lower)
    requires p.siteSlug == lower + az || (az == p.siteSlug && !(lower <= p.siteSlug))
    ensures GenerateName(sel, p) ==
              if sel.nameOverride != "" then Some(sel.nameOverride)
              else if IsWithin(p.roleSlug, TRANSIT_ROLE) && p.computeDigits.Some? then
                match Atoi(p.computeDigits.value)
                case None => None
                case Some(num) => Some(sel.namePrefix + "-" + az + Itoa(num - 1) + "-" + lower)
              else Some(sel.namePrefix + "-" + p.siteSlug)
  {
    assert ToLower(sel.region) == lower;
    if p.siteSlug == lower + az { assert TrimPrefix(p.siteSlug, lower) == az; }
    InfixMeaning(p.roleSlug, TRANSIT_ROLE);
    hide ToLower, TrimPrefix, HasInfix, IsWithin, InLowerCase, Atoi, Itoa;
  }

  lemma InfixMeaning(s: string, text: string)
    ensures HasInfix(s, text) <==> IsWithin(s, text)
  {
    if HasInfix(s, text) {
      var i :| 0 <= i <= |s| && text <= s[i..];
      assert s == s[..i] + text + s[i..][|text|..];
    }
    if IsWithin(s, text) {
      var a, b :| s == a + text + b;
      assert s[|a|..] == text + b;
    }
  }

  predicate EndsInDigit(s: string) { |s| > 0 && IsDigit(s[|s| - 1]) }

  /** A suffix of digits can be split off in only one way. */
  lemma SplitDigits(a: string, d: string, a': string, d': string)
    requires AllDigits(d) && AllDigits(d') && !EndsInDigit(a) && !EndsInDigit(a')
    requires a + d == a' + d'
    ensures a == a' && d == d'
  {
    var s := a + d;
    assert forall k | |a| <= k < |s| :: IsDigit(s[k]) && s[k] == d[k - |a|];
    assert forall k | |a'| <= k < |s| :: IsDigit(s[k]) && s[k] == d'[k - |a'|];
    assert |a| > 0 ==> s[|a| - 1] == a[|a| - 1];
    assert |a'| > 0 ==> s[|a'| - 1] == a'[|a'| - 1];
    assert |a| == |a'|;
    assert s[..|a|] == a && s[..|a|] == a' && s[|a|..] == d && s[|a|..] == d';
  }

  /**
   For one selector the compute-transit names are injective in availability-zone suffix and compute number,
   for suffixes that do not end in a digit and numbers from 1 on.
   */
  lemma TransitNamesInjective(sel: Selector, az: string, num: int, az': string, num': int)
    requires !EndsInDigit(az) && !EndsInDigit(az') && num >= 1 && num' >= 1
    requires TransitName(sel, az, num) == TransitName(sel, az', num')
    ensures az == az' && num == num'
  {
    var head, tail := sel.namePrefix + "-", "-" + ToLower(sel.region);
    NameParts(sel, az, num);
    NameParts(sel, az', num');
    hide TransitName;
    SameMiddle(head, az + Itoa(num - 1), az' + Itoa(num' - 1), tail);
    hide ToLower;
    SplitDigits(az, PrintNat(num - 1), az', PrintNat(num' - 1));
    ParsePrint(num - 1);
    ParsePrint(num' - 1);
  }

  lemma NameParts(sel: Selector, az: string, num: int)
    ensures TransitName(sel, az, num) == (sel.namePrefix + "-") + (az + Itoa(num - 1)) + ("-" + ToLower(sel.region))
  {
    hide ToLower, Itoa;
  }

  lemma SameMiddle(head: string, mid: string, mid': string, tail: string)
    requires head + mid + tail == head + mid' + tail
    ensures mid == mid'
  {
    var s := head + mid + tail;
    assert |mid| == |mid'|;
    assert s[|head|..|head| + |mid|] == mid && s[|head|..|head| + |mid'|] == mid';
  }

  /**
   Both provisos are needed, at every suffix.  Any suffix and any compute number from 11 on have the name of the suffix
   with the number's leading digits moved over to it; and compute number 0 has the name of number 2 of another suffix.
   */
  lemma TransitNamesCollide(sel: Selector, az: string, num: int)
    ensures num >= 11 ==> TransitName(sel, az, num) == TransitName(sel, az + Itoa((num - 1) / 10), (num - 1) % 10 + 1)
    ensures num >= 11 ==> EndsInDigit(az + Itoa((num - 1) / 10)) && az + Itoa((num - 1) / 10) != az
    ensures TransitName(sel, az, 0) == TransitName(sel, az + "-", 2)
  {
    if num >= 11 {
      var front, d := PrintNat((num - 1) / 10), [Digit((num - 1) % 10)];
      assert Itoa(num - 1) == front + d && Itoa((num - 1) % 10) == d;
      SameName(sel, az, num, az + front, (num - 1) % 10 + 1);
      assert (az + front)[|az + front| - 1] == front[|front| - 1];
    }
    assert Itoa(-1) == "-" + Itoa(1);
    SameName(sel, az, 0, az + "-", 2);
  }

  lemma SameName(sel: Selector, az: string, num: int, az': string, num': int)
    requires az + Itoa(num - 1) == az' + Itoa(num' - 1)
    ensures TransitName(sel, az, num) == TransitName(sel, az', num')
  {
    NameParts(sel, az, num);
    NameParts(sel, az', num');
  }

  // ---------- pool contents ----------

  function Singles(addrs: seq<nat>): (s: seq<Excluded>)
    ensures |s| == |addrs| && forall i | 0 <= i < |s| :: s[i] == Single(addrs[i])
  {
    seq(|addrs|, i requires 0 <= i < |addrs| => Single(addrs[i]))
  }

  function ListedAll(texts: seq<string>): (s: seq<Excluded>)
    ensures |s| == |texts| && forall i | 0 <= i < |s| :: s[i] == Listed(texts[i])
  {
    seq(|texts|, i requires 0 <= i < |texts| => Listed(texts[i]))
  }

  /** The name a job stands for: None when the controller reports an error before it looks for the pool. */
  function NameOf(job: Job): Option<string> {
    if job.pfx.prefix.None? then None else GenerateName(job.sel, job.pfx)
  }

  function BlockPart(sel: Selector, p: Prefix): seq<Excluded> {
    if sel.excludeMask.Some? then [Block(p.addr, sel.excludeMask.value)] else []
  }

  function ListedPart(sel: Selector): seq<Excluded> {
    if sel.excludedAddresses.Some? then ListedAll(sel.excludedAddresses.value) else []
  }

  function LastPart(sel: Selector, p: Prefix): seq<Excluded> {
    if sel.excludeLastN.Some? then Singles(LastN(p, sel.excludeLastN.value)) else []
  }

  /** The pool built for a prefix; None when the bottom block to exclude would not be smaller than the prefix. */
  function PoolOf(sel: Selector, p: Prefix): Option<Pool> {
    if sel.excludeMask.Some? && p.bits >= sel.excludeMask.value then None else
    Some(Pool(p, Next(p.addr), p.bits, BlockPart(sel, p) + ListedPart(sel) + LastPart(sel, p)))
  }

  /**
   What a new pool holds: the prefix itself, the address after its first one as gateway, its length as mask; and excluded are
   the bottom block, if one is asked for, then the listed texts in their order, then the last n addresses.
   */
  predicate Holds(pool: Pool, sel: Selector, p: Prefix) {
    var texts := if sel.excludedAddresses.Some? then sel.excludedAddresses.value else [];
    var last := if sel.excludeLastN.Some? then LastN(p, sel.excludeLastN.value) else [];
    var b := if sel.excludeMask.Some? then 1 else 0;
    && pool.addresses == p && pool.mask == p.bits
    && pool.gateway == (if p.addr == 0xFFFF_FFFF then None else Some(p.addr + 1))
    && |pool.excluded| == b + |texts| + |last|
    && (b == 1 ==> pool.excluded[0] == Block(p.addr, sel.excludeMask.value))
    && (forall i | 0 <= i < |texts| :: pool.excluded[b + i] == Listed(texts[i]))
    && (forall i | 0 <= i < |last| :: pool.excluded[b + |texts| + i] == Single(last[i]))
  }

  /** A pool is built unless the bottom block would not be smaller than the prefix, and holds what it should. */
  lemma PoolOfMeaning(sel: Selector, p: Prefix)
    ensures PoolOf(sel, p).None? <==> sel.excludeMask.Some? && p.bits >= sel.excludeMask.value
    ensures PoolOf(sel, p).Some? ==> Holds(PoolOf(sel, p).value, sel, p)
  {
    hide LastN;
  }

  /** The pool a job creates when its name is free; None when it reports an error instead. */
  function PoolFor(job: Job): Option<Pool> {
    if NameOf(job).None? then None else PoolOf(job.sel, job.pfx.prefix.value)
  }

  // ---------- capacity ----------

  /** Whether one entry of the exclusion list covers an address; entries given as text are not interpreted. */
  predicate Excludes(x: Excluded, a: nat) {
    match x
    case Block(net, mask) => 0 <= mask <= 32 && Contains(Prefix(net, mask), a)
    case Listed(_) => false
    case Single(addr) => a == addr
  }

  function Allocatable(pool: Pool): (s: set<nat>) {
    set a | a in Enumerate(pool.addresses) && forall x | x in pool.excluded :: !Excludes(x, a)
  }

  predicate Within(lo: int, a: int, hi: int) { lo <= a < hi }

  function Interval(lo: int, hi: int): set<int> { set a | lo <= a < hi && Within(lo, a, hi) }

  lemma {:induction false} IntervalSize(lo: int, hi: int)
    ensures |Interval(lo, hi)| == Max(hi - lo, 0)
    decreases hi - lo
  {
    if lo < hi {
      IntervalSize(lo, hi - 1);
      assert Interval(lo, hi) == Interval(lo, hi - 1) + {hi - 1};
    } else {
      assert Interval(lo, hi) == {};
    }
  }

  lemma {:induction false} Canonical(x: nat, k: nat, j: nat)
    requires j <= k && ClearLow(x, k) == x
    ensures ClearLow(x, j) == x
  {
    if j > 0 { Canonical(x / 2, k - 1, j - 1); }
  }

  lemma {:induction false} Pow2Mono(j: nat, k: nat)
    requires j <= k
    ensures Pow2(j) <= Pow2(k)
  {
    if j > 0 { Pow2Mono(j - 1, k - 1); }
  }

  /** The bottom block of a canonical prefix is the interval of its first 2^(32-e) addresses and lies inside the prefix. */
  lemma BottomBlock(p: Prefix, e: int)
    requires Network(p) == p.addr && p.bits <= e <= 32
    ensures Pow2(32 - e) <= Size(p)
    ensures forall a: nat :: Contains(Prefix(p.addr, e), a) <==> p.addr <= a < p.addr + Pow2(32 - e)
    ensures forall a: nat | Contains(Prefix(p.addr, e), a) :: Contains(p, a)
  {
    Canonical(p.addr, 32 - p.bits, 32 - e);
    Pow2Mono(32 - e, 32 - p.bits);
    forall a: nat
      ensures Contains(Prefix(p.addr, e), a) <==> p.addr <= a < p.addr + Pow2(32 - e)
      ensures Contains(Prefix(p.addr, e), a) ==> Contains(p, a)
    {
      ContainsIsInterval(Prefix(p.addr, e), a);
      ContainsIsInterval(p, a);
    }
  }

  /** The last n addresses as an interval. */
  lemma LastNInterval(p: Prefix, n: int, a: nat)
    ensures a in LastN(p, n) <==> Network(p) + Size(p) - LastCount(p, n) <= a < Network(p) + Size(p)
  {
    var k := LastCount(p, n);
    var base := Network(p) + Size(p) - k;
    assert forall i | 0 <= i < k :: LastN(p, n)[i] == base + i;
    if base <= a < base + k { assert LastN(p, n)[a - base] == a; }
  }

  lemma ExcludedAddresses(p: Prefix, e: int, n: int, a: nat)
    requires p.bits <= e <= 32
    ensures var xs := [Block(p.addr, e)] + Singles(LastN(p, n));
            (exists x | x in xs :: Excludes(x, a)) <==> Contains(Prefix(p.addr, e), a) || a in LastN(p, n)
  {
    var last := LastN(p, n);
    var xs := [Block(p.addr, e)] + Singles(last);
    if Contains(Prefix(p.addr, e), a) {
      assert xs[0] in xs && Excludes(xs[0], a);
    }
    if a in last {
      var i :| 0 <= i < |last| && last[i] == a;
      assert xs[i + 1] in xs && Excludes(xs[i + 1], a);
    }
    forall x | x in xs && Excludes(x, a) ensures Contains(Prefix(p.addr, e), a) || a in last {
      var i :| 0 <= i < |xs| && xs[i] == x;
      assert i > 0 ==> x == Single(last[i - 1]);
    }
  }

  lemma AllocatableInterval(p: Prefix, e: int, n: int, pool: Pool)
    requires Network(p) == p.addr && p.bits <= e <= 32
    requires pool.addresses == p && pool.excluded == [Block(p.addr, e)] + Singles(LastN(p, n))
    ensures Allocatable(pool) == Interval(p.addr + Pow2(32 - e), p.addr + Size(p) - LastCount(p, n))
  {
    var lo, hi := p.addr + Pow2(32 - e), p.addr + Size(p) - LastCount(p, n);
    BottomBlock(p, e);
    forall a: int ensures a in Allocatable(pool) <==> a in Interval(lo, hi) {
      if a >= 0 {
        ExcludedAddresses(p, e, n, a);
        LastNInterval(p, n, a);
        EnumerateIsPrefix(p, a);
        ContainsIsInterval(p, a);
      }
    }
  }

  /**
   Capacity: with a bottom block of mask e and the last n addresses excluded, exactly
   max(0, 2^(32-m) - 2^(32-e) - min(n, 2^(32-m))) addresses of a canonical prefix stay allocatable.
   */
  lemma PoolCapacity(job: Job, e: int, n: int)
    requires NameOf(job).Some? && Network(job.pfx.prefix.value) == job.pfx.prefix.value.addr
    requires job.sel.excludeMask == Some(e) && job.pfx.prefix.value.bits < e <= 32
    requires job.sel.excludeLastN == Some(n) && n >= 0
    requires job.sel.excludedAddresses.None? || job.sel.excludedAddresses.value == []
    ensures var m := job.pfx.prefix.value.bits;
            PoolFor(job).Some? &&
            |Allocatable(PoolFor(job).value)| == Max(0, Pow2(32 - m) - Pow2(32 - e) - Min(n, Pow2(32 - m)))
  {
    var p := job.pfx.prefix.value;
    PoolBuilt(job, e, n);
    hide PoolFor, Allocatable, Network, Interval;
    AllocatableInterval(p, e, n, PoolFor(job).value);
    IntervalSize(p.addr + Pow2(32 - e), p.addr + Size(p) - LastCount(p, n));
    BottomBlock(p, e);
  }

  lemma PoolBuilt(job: Job, e: int, n: int)
    requires NameOf(job).Some? && job.sel.excludeMask == Some(e) && job.pfx.prefix.value.bits < e
    requires job.sel.excludeLastN == Some(n) && (job.sel.excludedAddresses.None? || job.sel.excludedAddresses.value == [])
    ensures var p := job.pfx.prefix.value;
            && PoolFor(job).Some? && PoolFor(job).value.addresses == p
            && PoolFor(job).value.excluded == [Block(p.addr, e)] + Singles(LastN(p, n))
  {
    hide LastN, GenerateName;
  }

  /** The gateway exists, and the excluded bottom block covers it exactly when the block has more than one address. */
  lemma GatewayExcluded(p: Prefix, e: int)
    requires Network(p) == p.addr && p.bits < e <= 32
    ensures Next(p.addr) == Some(p.addr + 1) && Contains(p, p.addr + 1)
    ensures Excludes(Block(p.addr, e), p.addr + 1) <==> e <= 31
  {
    BottomBlock(p, e);
    NetworkBound(p);
    Pow2Mono(1, 32 - p.bits);
    ContainsIsInterval(p, p.addr + 1);
    if e <= 31 { Pow2Mono(1, 32 - e); }
  }

  // ---------- the import ----------

  function Serve(pools: map<string, Pool>, job: Job): map<string, Pool> {
    if PoolFor(job).None? || NameOf(job).value in pools then pools
    else pools[NameOf(job).value := PoolFor(job).value]
  }

  predicate CanServe(pools: map<string, Pool>, job: Job) {
    NameOf(job).Some? && (PoolFor(job).Some? || NameOf(job).value in pools)
  }

  /** The pools after the jobs were served in order: an existing name is skipped, a free name gets the job's pool. */
  function FirstWins(pools: map<string, Pool>, jobs: seq<Job>): map<string, Pool> {
    if jobs == [] then pools else Serve(FirstWins(pools, jobs[..|jobs| - 1]), jobs[|jobs| - 1])
  }

  /** What a pass needs to run to its end: every job has a name, and a pool unless its name is taken when it is served. */
  predicate Servable(pools: map<string, Pool>, jobs: seq<Job>) {
    jobs == [] ||
    (Servable(pools, jobs[..|jobs| - 1]) && CanServe(FirstWins(pools, jobs[..|jobs| - 1]), jobs[|jobs| - 1]))
  }

  /** The index of the first job with that name, |jobs| when there is none. */
  function First(jobs: seq<Job>, name: string): (i: nat)
    ensures i <= |jobs|
    ensures i < |jobs| ==> NameOf(jobs[i]) == Some(name)
    ensures forall j | 0 <= j < i :: NameOf(jobs[j]) != Some(name)
  {
    if jobs == [] then 0
    else
      var i := First(jobs[..|jobs| - 1], name);
      if i < |jobs| - 1 || NameOf(jobs[|jobs| - 1]) == Some(name) then i else |jobs|
  }

  lemma {:induction false} FirstWinsKeeps(pools: map<string, Pool>, jobs: seq<Job>, name: string)
    ensures name in pools ==> name in FirstWins(pools, jobs) && FirstWins(pools, jobs)[name] == pools[name]
    ensures name !in pools && First(jobs, name) == |jobs| ==> name !in FirstWins(pools, jobs)
  {
    if jobs != [] { FirstWinsKeeps(pools, jobs[..|jobs| - 1], name); }
  }

  lemma {:induction false} FirstWinsGrows(pools: map<string, Pool>, jobs: seq<Job>, k: nat, name: string)
    requires k <= |jobs| && name in FirstWins(pools, jobs[..k])
    ensures name in FirstWins(pools, jobs) && FirstWins(pools, jobs)[name] == FirstWins(pools, jobs[..k])[name]
    decreases |jobs|
  {
    if k < |jobs| {
      assert jobs[..|jobs| - 1][..k] == jobs[..k];
      FirstWinsGrows(pools, jobs[..|jobs| - 1], k, name);
    } else {
      assert jobs[..k] == jobs;
    }
  }

  lemma {:induction false} ServablePrefix(pools: map<string, Pool>, jobs: seq<Job>, k: nat)
    requires Servable(pools, jobs) && k <= |jobs|
    ensures Servable(pools, jobs[..k])
    decreases |jobs|
  {
    if k < |jobs| {
      assert jobs[..|jobs| - 1][..k] == jobs[..k];
      ServablePrefix(pools, jobs[..|jobs| - 1], k);
    } else {
      assert jobs[..k] == jobs;
    }
  }

  /**
   What a pass needs, pair by pair: each has a name, and where that name was free the first pair with that name has a
   pool, that is, an exclusion mask longer than its prefix if it has one.
   */
  lemma {:induction false} ServableMeaning(pools: map<string, Pool>, jobs: seq<Job>)
    ensures Servable(pools, jobs) <==> AllAcceptable(pools, jobs, |jobs|)
  {
    hide CanServe, NameOf, PoolFor, FirstLike;
    if jobs != [] {
      ServableMeaning(pools, jobs[..|jobs| - 1]);
      SameAcceptable(pools, jobs);
      if Servable(pools, jobs[..|jobs| - 1]) { LastCanServe(pools, jobs); }
    }
  }

  predicate AllAcceptable(pools: map<string, Pool>, jobs: seq<Job>, n: nat)
    requires n <= |jobs|
  {
    forall i | 0 <= i < n :: Acceptable(pools, jobs, i)
  }

  lemma SameAcceptable(pools: map<string, Pool>, jobs: seq<Job>)
    requires jobs != []
    ensures AllAcceptable(pools, jobs[..|jobs| - 1], |jobs| - 1) <==> AllAcceptable(pools, jobs, |jobs| - 1)
  {
    var init := jobs[..|jobs| - 1];
    forall i | 0 <= i < |init| ensures Acceptable(pools, init, i) == Acceptable(pools, jobs, i) {
      assert init[i] == jobs[i];
      if NameOf(jobs[i]).Some? { FirstStays(jobs, i); }
    }
  }

  predicate Acceptable(pools: map<string, Pool>, jobs: seq<Job>, i: nat)
    requires i < |jobs|
  {
    NameOf(jobs[i]).Some? && (NameOf(jobs[i]).value in pools || PoolFor(jobs[FirstLike(jobs, i)]).Some?)
  }

  /** The first job with the name of job i. */
  function FirstLike(jobs: seq<Job>, i: nat): (f: nat)
    requires i < |jobs| && NameOf(jobs[i]).Some?
    ensures f <= i && NameOf(jobs[f]) == NameOf(jobs[i])
  {
    First(jobs, NameOf(jobs[i]).value)
  }

  lemma FirstStays(jobs: seq<Job>, i: nat)
    requires i < |jobs| - 1 && NameOf(jobs[i]).Some?
    ensures FirstLike(jobs[..|jobs| - 1], i) == FirstLike(jobs, i)
  {
    var init, name := jobs[..|jobs| - 1], NameOf(jobs[i]).value;
    assert init[i] == jobs[i];
    assert First(init, name) <= i;
  }

  lemma LastCanServe(pools: map<string, Pool>, jobs: seq<Job>)
    requires jobs != [] && Servable(pools, jobs[..|jobs| - 1])
    ensures CanServe(FirstWins(pools, jobs[..|jobs| - 1]), jobs[|jobs| - 1]) <==> Acceptable(pools, jobs, |jobs| - 1)
  {
    var init, last := jobs[..|jobs| - 1], |jobs| - 1;
    if NameOf(jobs[last]).Some? {
      var name := NameOf(jobs[last]).value;
      CompletedPassMeaning(pools, init, name);
      if First(init, name) < |init| { assert init[First(init, name)] == jobs[First(init, name)]; }
    }
  }

  /**
   What a completed pass leaves, name by name: a pool that was there is unchanged, a name of some job
   carries exactly the pool of the first job with that name, and there is nothing else.
   */
  lemma {:induction false} CompletedPassMeaning(pools: map<string, Pool>, jobs: seq<Job>, name: string)
    requires Servable(pools, jobs)
    ensures var after, f := FirstWins(pools, jobs), First(jobs, name);
            && (name in pools ==> name in after && after[name] == pools[name])
            && (name !in pools && f < |jobs| ==> name in after && PoolFor(jobs[f]) == Some(after[name]))
            && (name !in pools && f == |jobs| ==> name !in after)
  {
    FirstWinsKeeps(pools, jobs, name);
    var f := First(jobs, name);
    if name !in pools && f < |jobs| {
      assert First(jobs[..f], name) == f;
      FirstWinsKeeps(pools, jobs[..f], name);
      assert jobs[..f + 1][..f] == jobs[..f];
      ServablePrefix(pools, jobs, f + 1);
      FirstWinsGrows(pools, jobs, f + 1, name);
    }
  }

  /** A pass that starts from what an interrupted pass left ends where an uninterrupted one ends. */
  lemma {:induction false} FirstWinsAbsorbs(pools: map<string, Pool>, jobs: seq<Job>, k: nat, i: nat)
    requires k <= |jobs| && i <= |jobs|
    ensures FirstWins(FirstWins(pools, jobs[..k]), jobs[..i]) == FirstWins(pools, jobs[..if i <= k then k else i])
    decreases i
  {
    if i > 0 {
      FirstWinsAbsorbs(pools, jobs, k, i - 1);
      assert jobs[..i][..i - 1] == jobs[..i - 1];
      if i <= k {
        assert jobs[..k][..i] == jobs[..i];
        if PoolFor(jobs[i - 1]).Some? {
          FirstWinsGrows(pools, jobs[..k], i, NameOf(jobs[i - 1]).value);
        }
      }
    } else {
      assert jobs[..0] == [];
    }
  }

  /** `before` was left by a pass that was cut short somewhere. */
  ghost predicate CutShort(before: map<string, Pool>, after: map<string, Pool>, jobs: seq<Job>) {
    exists k | 0 <= k <= |jobs| :: after == FirstWins(before, jobs[..k])
  }

  /** Any number of interrupted passes on unchanged inputs does not change where a completed pass ends. */
  lemma {:induction false} InterruptionsDoNotMatter(runs: seq<map<string, Pool>>, jobs: seq<Job>)
    requires |runs| > 0 && forall i | 0 <= i < |runs| - 1 :: CutShort(runs[i], runs[i + 1], jobs)
    ensures FirstWins(runs[|runs| - 1], jobs) == FirstWins(runs[0], jobs)
  {
    if |runs| > 1 {
      var front := runs[..|runs| - 1];
      InterruptionsDoNotMatter(front, jobs);
      var last := front[|front| - 1];
      assert CutShort(runs[|runs| - 2], runs[|runs| - 1], jobs);
      var k :| 0 <= k <= |jobs| && runs[|runs| - 1] == FirstWins(last, jobs[..k]);
      FirstWinsAbsorbs(last, jobs, k, |jobs|);
      assert jobs[..|jobs|] == jobs;
    }
  }

  function JobsOf(sel: Selector, prefixes: seq<NbPrefix>): (jobs: seq<Job>)
    ensures |jobs| == |prefixes|
  {
    seq(|prefixes|, i requires 0 <= i < |prefixes| => Job(sel, prefixes[i]))
  }

  /** NetBox's answer for a selector: the prefixes of its region and role. */
  type Catalog = map<(string, string), seq<NbPrefix>>

  function Lookup(cat: Catalog, sel: Selector): seq<NbPrefix> {
    if (sel.region, sel.role) in cat then cat[(sel.region, sel.role)] else []
  }

  /** All (selector, prefix) pairs of the first n selectors, in the order the nested loops visit them. */
  function AllJobs(sels: seq<Selector>, cat: Catalog, n: nat): seq<Job>
    requires n <= |sels|
  {
    if n == 0 then [] else AllJobs(sels, cat, n - 1) + JobsOf(sels[n - 1], Lookup(cat, sels[n - 1]))
  }

  /** How many pairs come before those of selector i. */
  function Before(sels: seq<Selector>, cat: Catalog, i: nat): nat
    requires i <= |sels|
  {
    if i == 0 then 0
    else
      var key := (sels[i - 1].region, sels[i - 1].role);
      Before(sels, cat, i - 1) + if key in cat then |cat[key]| else 0
  }

  /** The pair is selector i with the jth of the prefixes that NetBox has for its region and role. */
  predicate IsPair(sels: seq<Selector>, cat: Catalog, i: int, j: int, job: Job) {
    && 0 <= i < |sels| && job.sel == sels[i]
    && (job.sel.region, job.sel.role) in cat && 0 <= j < |cat[(job.sel.region, job.sel.role)]|
    && job.pfx == cat[(job.sel.region, job.sel.role)][j]
  }

  /** Each such pair is on the list, and where: selector after selector, and for each one prefix after prefix. */
  lemma {:induction false} PairAt(sels: seq<Selector>, cat: Catalog, n: nat, i: int, j: int, job: Job)
    requires n <= |sels| && i < n && IsPair(sels, cat, i, j, job)
    ensures Before(sels, cat, i) + j < |AllJobs(sels, cat, n)| && AllJobs(sels, cat, n)[Before(sels, cat, i) + j] == job
    decreases n
  {
    AllJobsLength(sels, cat, n - 1);
    if i < n - 1 { PairAt(sels, cat, n - 1, i, j, job); }
  }

  lemma {:induction false} AllJobsLength(sels: seq<Selector>, cat: Catalog, n: nat)
    requires n <= |sels|
    ensures |AllJobs(sels, cat, n)| == Before(sels, cat, n)
  {
    if n > 0 { AllJobsLength(sels, cat, n - 1); }
  }

  /** Nothing else is on the list. */
  lemma {:induction false} PairFrom(sels: seq<Selector>, cat: Catalog, n: nat, k: nat) returns (i: nat, j: nat)
    requires n <= |sels| && k < |AllJobs(sels, cat, n)|
    ensures i < n && IsPair(sels, cat, i, j, AllJobs(sels, cat, n)[k]) && k == Before(sels, cat, i) + j
  {
    AllJobsLength(sels, cat, n - 1);
    if k < |AllJobs(sels, cat, n - 1)| {
      i, j := PairFrom(sels, cat, n - 1, k);
    } else {
      i, j := n - 1, k - |AllJobs(sels, cat, n - 1)|;
    }
  }

  lemma {:induction false} BeforeGrows(sels: seq<Selector>, cat: Catalog, i: nat, n: nat)
    requires i <= n <= |sels|
    ensures Before(sels, cat, i) <= Before(sels, cat, n)
    decreases n
  {
    if i < n { BeforeGrows(sels, cat, i, n - 1); }
  }

  /** A pair is on the list exactly when it is one of a selector, and the list has them in the order of selectors and prefixes. */
  lemma AllJobsMeaning(sels: seq<Selector>, cat: Catalog, job: Job)
    ensures job in AllJobs(sels, cat, |sels|) <==> exists i, j :: IsPair(sels, cat, i, j, job)
    ensures forall i: nat, j: nat, i': nat, j': nat, other: Job
              | IsPair(sels, cat, i, j, job) && IsPair(sels, cat, i', j', other) && (i < i' || (i == i' && j < j')) ::
              Before(sels, cat, i) + j < Before(sels, cat, i') + j'
  {
    var all := AllJobs(sels, cat, |sels|);
    if job in all {
      var k :| 0 <= k < |all| && all[k] == job;
      var i, j := PairFrom(sels, cat, |sels|, k);
    }
    if i, j :| IsPair(sels, cat, i, j, job) { PairAt(sels, cat, |sels|, i, j, job); }
    forall i: nat, j: nat, i': nat, j': nat, other: Job
      | IsPair(sels, cat, i, j, job) && IsPair(sels, cat, i', j', other) && (i < i' || (i == i' && j < j'))
      ensures Before(sels, cat, i) + j < Before(sels, cat, i') + j'
    {
      if i < i' { BeforeGrows(sels, cat, i + 1, i'); }
    }
  }

  /**
   After a completed pass every pair has its pool: one that was there before, unchanged, or a new one that holds what the
   first pair of that name asks for.
   */
  predicate PoolThere(before: map<string, Pool>, after: map<string, Pool>, jobs: seq<Job>, job: Job) {
    && NameOf(job).Some? && NameOf(job).value in after
    && var name := NameOf(job).value;
       if name in before then after[name] == before[name]
       else exists k :: 0 <= k < |jobs| && FirstNamed(jobs, k, name) && Holds(after[name], jobs[k].sel, jobs[k].pfx.prefix.value)
  }

  predicate FirstNamed(jobs: seq<Job>, k: nat, name: string)
    requires k < |jobs|
  {
    NameOf(jobs[k]) == Some(name) && forall m | 0 <= m < k :: NameOf(jobs[m]) != Some(name)
  }

  lemma PoolIsThere(before: map<string, Pool>, jobs: seq<Job>, job: Job)
    requires Servable(before, jobs) && job in jobs
    ensures PoolThere(before, FirstWins(before, jobs), jobs, job)
  {
    hide GenerateName, PoolOf, Holds;
    var i :| 0 <= i < |jobs| && jobs[i] == job;
    ServableMeaning(before, jobs);
    assert Acceptable(before, jobs, i);
    var name := NameOf(job).value;
    CompletedPassMeaning(before, jobs, name);
    var k := First(jobs, name);
    assert k <= i;
    if name !in before {
      PoolOfMeaning(jobs[k].sel, jobs[k].pfx.prefix.value);
      assert FirstNamed(jobs, k, name);
    }
  }

  /** No selector is without prefixes, which NetBox's service would report as an error. */
  predicate NoneEmpty(sels: seq<Selector>, cat: Catalog, n: nat)
    requires n <= |sels|
  {
    forall i | 0 <= i < n :: Lookup(cat, sels[i]) != []
  }

  class PoolImporter {
    var pools: map<string, Pool>
    const catalog: Catalog
    const replies: Replies
    /** The number of calls made so far. */
    var calls: nat

    constructor (catalog: Catalog, pools: map<string, Pool>, replies: Replies)
      ensures this.pools == pools && this.catalog == catalog && this.replies == replies && calls == 0
    {
      this.catalog := catalog;
      this.pools := pools;
      this.replies := replies;
      this.calls := 0;
    }

    method Call() returns (reply: Reply)
      modifies `calls
      ensures calls == old(calls) + 1 && reply == replies[old(calls)]
    {
      reply := replies[calls];
      calls := calls + 1;
    }

    /** The pool read: any error counts as "not found". */
    method Get(name: string) returns (found: bool)
      modifies `calls
      ensures calls == old(calls) + 1 && (found <==> replies[old(calls)].Done? && name in pools)
    {
      var reply := Call();
      found := reply.Done? && name in pools;
    }

    method Create(name: string, pool: Pool) returns (ok: bool)
      modifies this
      ensures calls == old(calls) + 1 && (ok <==> replies[old(calls)].Done? && name !in old(pools))
      ensures pools == if replies[old(calls)].Refused? || name in old(pools) then old(pools) else old(pools)[name := pool]
    {
      var reply := Call();
      if name in pools || reply.Refused? { return false; }
      pools := pools[name := pool];
      return reply.Done?;
    }

    /** The new pool of `reconcileIPPool`: its exclusion list is built up step by step. */
    method BuildPool(sel: Selector, prefix: Prefix) returns (pool: Option<Pool>)
      ensures pool == PoolOf(sel, prefix)
      ensures pool.None? <==> sel.excludeMask.Some? && prefix.bits >= sel.excludeMask.value
      ensures pool.Some? ==> Holds(pool.value, sel, prefix)
    {
      PoolOfMeaning(sel, prefix);
      hide Holds;
      var gateway, mask := Next(prefix.addr), prefix.bits;
      var excluded: seq<Excluded> := [];
      if sel.excludeMask.Some? {
        if mask >= sel.excludeMask.value { return None; }
        excluded := [Block(prefix.addr, sel.excludeMask.value)];
      }
      if sel.excludedAddresses.Some? {
        excluded := excluded + ListedAll(sel.excludedAddresses.value);
      }
      assert excluded == BlockPart(sel, prefix) + ListedPart(sel);
      if sel.excludeLastN.Some? {
        var lastN := GetLastNIPs(prefix, sel.excludeLastN.value);
        ghost var start := excluded;
        for i := 0 to |lastN|
          invariant excluded == start + Singles(lastN)[..i]
        {
          excluded := excluded + [Single(lastN[i])];
        }
      }
      assert excluded == BlockPart(sel, prefix) + ListedPart(sel) + LastPart(sel, prefix);
      pool := Some(Pool(prefix, gateway, mask, excluded));
    }

    /** `reconcileIPPool` for one prefix of a selector. */
    method ReconcileIPPool(sel: Selector, pfx: NbPrefix) returns (ok: bool)
      modifies this
      ensures old(calls) <= calls
      ensures ok ==> CanServe(old(pools), Job(sel, pfx)) && pools == Serve(old(pools), Job(sel, pfx))
      ensures !ok ==> pools == old(pools) || pools == Serve(old(pools), Job(sel, pfx))
      ensures Answered(replies, old(calls), calls) ==> (ok <==> CanServe(old(pools), Job(sel, pfx)))
      ensures forall n | n in pools && n !in old(pools) ::
                pfx.prefix.Some? && GenerateName(sel, pfx) == Some(n) && Holds(pools[n], sel, pfx.prefix.value)
    {
      hide PoolOf, GenerateName, Holds;
      var name := GenerateName(sel, pfx);
      if name.None? || pfx.prefix.None? { return false; }
      ghost var c := calls;
      var found := Get(name.value);
      if !found {
        var pool := BuildPool(sel, pfx.prefix.value);
        if pool.None? { return false; }
        ok := Create(name.value, pool.value);
        AnsweredParts(replies, c, c + 1, calls);
        return;
      }
      return true;
    }

    /** `reconcileIPPoolSelection`: NetBox's service reports an empty result as an error. */
    method ReconcileSelection(sel: Selector) returns (ok: bool)
      modifies this
      ensures old(calls) <= calls
      ensures var jobs := JobsOf(sel, Lookup(catalog, sel));
              && CutShort(old(pools), pools, jobs)
              && (ok ==> jobs != [] && Servable(old(pools), jobs) && pools == FirstWins(old(pools), jobs))
              && (Answered(replies, old(calls), calls) ==> (ok <==> jobs != [] && Servable(old(pools), jobs)))
    {
      hide CanServe, Serve, NameOf, PoolFor;
      ghost var jobs := JobsOf(sel, Lookup(catalog, sel));
      var reply := Call();
      var prefixes := Lookup(catalog, sel);
      assert jobs[..0] == [];
      if reply != Done || prefixes == [] { return false; }
      for i := 0 to |prefixes|
        invariant old(calls) <= calls
        invariant pools == FirstWins(old(pools), jobs[..i])
        invariant Servable(old(pools), jobs[..i])
      {
        assert jobs[..i + 1][..i] == jobs[..i];
        ghost var mid, c := pools, calls;
        ok := ReconcileIPPool(sel, prefixes[i]);
        AnsweredParts(replies, old(calls), c, calls);
        if !ok {
          if !CanServe(mid, jobs[i]) { CannotServe(old(pools), jobs, i); }
          return;
        }
      }
      assert jobs[..|jobs|] == jobs;
      return true;
    }

    /**
     The selector loop of `Reconcile`: success means every pair was served; otherwise the pass was cut short.  A pass
     without a failed call completes exactly when no selector is without prefixes and every pair can be served.
     */
    method ImportAll(sels: seq<Selector>) returns (ok: bool)
      modifies this
      ensures old(calls) <= calls
      ensures var jobs := AllJobs(sels, catalog, |sels|);
              && CutShort(old(pools), pools, jobs)
              && (ok ==> NoneEmpty(sels, catalog, |sels|) && Servable(old(pools), jobs) && pools == FirstWins(old(pools), jobs))
              && (Answered(replies, old(calls), calls) ==>
                    (ok <==> NoneEmpty(sels, catalog, |sels|) && Servable(old(pools), jobs)))
      ensures ok ==> forall i, j, job | IsPair(sels, catalog, i, j, job) ::
                PoolThere(old(pools), pools, AllJobs(sels, catalog, |sels|), job)
    {
      hide CanServe, Serve, NameOf, PoolFor, CutShort, Lookup, IsPair, PoolThere;
      for s := 0 to |sels|
        invariant old(calls) <= calls && NoneEmpty(sels, catalog, s)
        invariant pools == FirstWins(old(pools), AllJobs(sels, catalog, s))
        invariant Servable(old(pools), AllJobs(sels, catalog, s))
      {
        ghost var c := calls;
        ok := ReconcileSelection(sels[s]);
        AnsweredParts(replies, old(calls), c, calls);
        if !ok {
          SelectionCut(old(pools), sels, s, catalog, pools);
          return;
        }
        SelectionDone(old(pools), sels, s, catalog);
      }
      ghost var jobs := AllJobs(sels, catalog, |sels|);
      CutNowhere(old(pools), jobs);
      AllPoolsThere(old(pools), sels, catalog);
      return true;
    }
  }

  lemma AllPoolsThere(before: map<string, Pool>, sels: seq<Selector>, cat: Catalog)
    requires Servable(before, AllJobs(sels, cat, |sels|))
    ensures var jobs := AllJobs(sels, cat, |sels|);
            forall i, j, job | IsPair(sels, cat, i, j, job) :: PoolThere(before, FirstWins(before, jobs), jobs, job)
  {
    hide PoolThere, IsPair, Servable;
    var jobs := AllJobs(sels, cat, |sels|);
    forall i, j, job | IsPair(sels, cat, i, j, job) ensures PoolThere(before, FirstWins(before, jobs), jobs, job) {
      AllJobsMeaning(sels, cat, job);
      PoolIsThere(before, jobs, job);
    }
  }

  lemma CutNowhere(pools: map<string, Pool>, jobs: seq<Job>)
    ensures CutShort(pools, FirstWins(pools, jobs), jobs)
  {
    assert jobs[..|jobs|] == jobs;
  }

  lemma CannotServe(pools: map<string, Pool>, jobs: seq<Job>, i: nat)
    requires i < |jobs| && !CanServe(FirstWins(pools, jobs[..i]), jobs[i])
    ensures !Servable(pools, jobs)
  {
    assert jobs[..i + 1][..i] == jobs[..i];
    if Servable(pools, jobs) { ServablePrefix(pools, jobs, i + 1); }
  }

  lemma SelectionDone(pools: map<string, Pool>, sels: seq<Selector>, s: nat, cat: Catalog)
    requires s < |sels| && Servable(pools, AllJobs(sels, cat, s))
    requires Servable(FirstWins(pools, AllJobs(sels, cat, s)), JobsOf(sels[s], Lookup(cat, sels[s])))
    ensures FirstWins(pools, AllJobs(sels, cat, s + 1))
            == FirstWins(FirstWins(pools, AllJobs(sels, cat, s)), JobsOf(sels[s], Lookup(cat, sels[s])))
    ensures Servable(pools, AllJobs(sels, cat, s + 1))
  {
    var head, more := AllJobs(sels, cat, s), JobsOf(sels[s], Lookup(cat, sels[s]));
    FirstWinsAppend(pools, head, more);
    ServableAppend(pools, head, more);
  }

  lemma SelectionCut(pools: map<string, Pool>, sels: seq<Selector>, s: nat, cat: Catalog, after: map<string, Pool>)
    requires s < |sels|
    requires CutShort(FirstWins(pools, AllJobs(sels, cat, s)), after, JobsOf(sels[s], Lookup(cat, sels[s])))
    ensures CutShort(pools, after, AllJobs(sels, cat, |sels|))
    ensures var jobs := JobsOf(sels[s], Lookup(cat, sels[s]));
            jobs == [] || !Servable(FirstWins(pools, AllJobs(sels, cat, s)), jobs) ==>
              !(NoneEmpty(sels, cat, |sels|) && Servable(pools, AllJobs(sels, cat, |sels|)))
  {
    JobsPrefix(sels, s + 1, |sels|, cat);
    CannotPart(pools, AllJobs(sels, cat, s), JobsOf(sels[s], Lookup(cat, sels[s])), AllJobs(sels, cat, |sels|));
    CutInPart(pools, after, AllJobs(sels, cat, s), JobsOf(sels[s], Lookup(cat, sels[s])), AllJobs(sels, cat, |sels|));
  }

  /** A pass cut short inside its second part. */
  lemma CutInPart(pools: map<string, Pool>, after: map<string, Pool>, a: seq<Job>, b: seq<Job>, all: seq<Job>)
    requires a + b <= all && CutShort(FirstWins(pools, a), after, b)
    ensures CutShort(pools, after, all)
  {
    hide FirstWins, Serve;
    var k :| 0 <= k <= |b| && after == FirstWins(FirstWins(pools, a), b[..k]);
    FirstWinsAppend(pools, a, b[..k]);
    assert all[..|a| + k] == a + b[..k];
  }

  lemma {:induction false} FirstWinsAppend(pools: map<string, Pool>, a: seq<Job>, b: seq<Job>)
    ensures FirstWins(pools, a + b) == FirstWins(FirstWins(pools, a), b)
    decreases |b|
  {
    if b == [] {
      assert a + b == a;
    } else {
      assert (a + b)[..|a + b| - 1] == a + b[..|b| - 1];
      FirstWinsAppend(pools, a, b[..|b| - 1]);
    }
  }

  lemma {:induction false} ServableAppend(pools: map<string, Pool>, a: seq<Job>, b: seq<Job>)
    ensures Servable(pools, a + b) <==> Servable(pools, a) && Servable(FirstWins(pools, a), b)
    decreases |b|
  {
    if b == [] {
      assert a + b == a;
    } else {
      assert (a + b)[..|a + b| - 1] == a + b[..|b| - 1];
      ServableAppend(pools, a, b[..|b| - 1]);
      FirstWinsAppend(pools, a, b[..|b| - 1]);
    }
  }

  /** A pass whose second part cannot be served cannot be served. */
  lemma CannotPart(pools: map<string, Pool>, a: seq<Job>, b: seq<Job>, all: seq<Job>)
    requires a + b <= all
    ensures !Servable(FirstWins(pools, a), b) ==> !Servable(pools, all)
  {
    ServableAppend(pools, a, b);
    ServableAppend(pools, a + b, all[|a + b|..]);
    assert a + b + all[|a + b|..] == all;
  }

  lemma {:induction false} JobsPrefix(sels: seq<Selector>, s: nat, n: nat, cat: Catalog)
    requires s <= n <= |sels|
    ensures AllJobs(sels, cat, s) <= AllJobs(sels, cat, n)
    decreases n
  {
    if s < n { JobsPrefix(sels, s, n - 1, cat); }
  }
}
