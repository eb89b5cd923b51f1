/** Cross-domain conservation of the byte counters over runs of create, move and destroy
    (pddgpu_object.c:41-76, 90-194, 208-239; pddgpu_memory_stats.c:178-285, 543-546, 668-691).

    Bytes are reported twice: by the managers, through update_usage, whenever a resource is
    allocated or freed, and by alloc_end and free_end once per buffer object.  A move changes the
    resource but reports no bytes of the object, and free_end charges the domain the object is in
    when it dies, so a single domain does not balance. */
module Conservation {
  import opened Seqs
  import opened U64
  import opened MemoryStats

  /** A buffer object: its size, the domain alloc_end charged, and where its resource is now. */
  datatype Bo = Bo(size: u64, born: Domain, current: Domain)

  /** Per domain, the unbounded history: bytes of objects created in it, bytes of objects destroyed
      while in it, bytes of destroyed objects that had been created in it, and the managers' net
      contribution. */
  datatype Book = Book(born: int, died: int, bornDead: int, manager: int)

  datatype State = State(counters: Counters, live: seq<Bo>, vram: Book, gtt: Book, other: Book)

  datatype Op =
    | Manager(usage: Usage)                 // a resource is allocated or freed
    | Create(size: u64, domain: Domain)     // alloc_end with result 0
    | Move(i: nat, to: Domain)
    | Destroy(i: nat, attached: bool)       // free_end, with or without a resource

  predicate Blank(b: Book) {
    b.born == 0 && b.died == 0 && b.bornDead == 0 && b.manager == 0
  }

  /** pddgpu_memory_stats_init: no objects, and every byte counter at zero. */
  predicate Init(s: State) {
    && |s.live| == 0 && Blank(s.vram) && Blank(s.gtt) && Blank(s.other)
    && s.counters.vram.acquired == 0 && s.counters.vram.freed == 0
    && s.counters.gtt.acquired == 0 && s.counters.gtt.freed == 0
  }

  function BookOf(s: State, d: Domain): Book {
    match d
    case Vram => s.vram
    case Tt => s.gtt
    case System => s.other
  }

  function Signed(u: Usage): int {
    var size: int := u.size;
    if u.alloc then size else -size
  }

  predicate Enabled(s: State, op: Op) {
    match op
    case Manager(_) => true
    case Create(_, _) => true
    case Move(i, _) => i < |s.live|
    case Destroy(i, _) => i < |s.live|
  }

  /** Where free_end sees the object: without a resource it reads domain 0, the system domain. */
  function SeenIn(bo: Bo, attached: bool): Domain {
    if attached then bo.current else System
  }

  /** What an operation enters in the book of domain d. */
  function BookAfter(b: Book, d: Domain, live: seq<Bo>, op: Op): Book
    requires op.Destroy? ==> op.i < |live|
  {
    match op
    case Manager(u) => if u.domain == d then b.(manager := b.manager + Signed(u)) else b
    case Create(size, at) => if at == d then b.(born := b.born + size) else b
    case Move(_, _) => b
    case Destroy(i, attached) =>
      b.(died := b.died + if SeenIn(live[i], attached) == d then live[i].size else 0,
         bornDead := b.bornDead + if live[i].born == d then live[i].size else 0)
  }

  function CountersAfter(c: Counters, live: seq<Bo>, op: Op): Counters
    requires op.Destroy? ==> op.i < |live|
  {
    match op
    case Manager(u) => Plus(c, Delta(u))
    case Create(size, at) => Plus(c, EndDelta(Usage(at, size, true)))
    case Move(_, _) => c
    case Destroy(i, attached) => Plus(c, EndDelta(Usage(SeenIn(live[i], attached), live[i].size, false)))
  }

  function LiveAfter(live: seq<Bo>, op: Op): seq<Bo>
    requires op.Move? || op.Destroy? ==> op.i < |live|
  {
    match op
    case Manager(_) => live
    case Create(size, at) => live + [Bo(size, at, at)]
    case Move(i, to) => live[i := live[i].(current := to)]
    case Destroy(i, _) => Without(live, i)
  }

  function Do(s: State, op: Op): State
    requires Enabled(s, op)
  {
    State(CountersAfter(s.counters, s.live, op), LiveAfter(s.live, op),
          BookAfter(s.vram, Vram, s.live, op), BookAfter(s.gtt, Tt, s.live, op), BookAfter(s.other, System, s.live, op))
  }

  predicate Legal(s: State, ops: seq<Op>)
    decreases |ops|
  {
    ops == [] || (Enabled(s, ops[0]) && Legal(Do(s, ops[0]), ops[1..]))
  }

  /** The state after a run. */
  function Exec(s: State, ops: seq<Op>): State
    requires Legal(s, ops)
    decreases |ops|
  {
    if ops == [] then s else Exec(Do(s, ops[0]), ops[1..])
  }

  function LiveSize(live: seq<Bo>): nat {
    if |live| == 0 then 0 else LiveSize(live[..|live| - 1]) + live[|live| - 1].size
  }

  function LiveBorn(live: seq<Bo>, d: Domain): nat {
    if |live| == 0 then 0
    else LiveBorn(live[..|live| - 1], d) + if live[|live| - 1].born == d then live[|live| - 1].size else 0
  }

  lemma LiveAppend(live: seq<Bo>, bo: Bo, d: Domain)
    ensures LiveSize(live + [bo]) == LiveSize(live) + bo.size
    ensures LiveBorn(live + [bo], d) == LiveBorn(live, d) + if bo.born == d then bo.size else 0
  {
    assert (live + [bo])[..|live|] == live;
  }

  lemma {:induction false} LiveRemove(live: seq<Bo>, i: nat, d: Domain)
    requires i < |live|
    ensures LiveSize(Without(live, i)) == LiveSize(live) - live[i].size
    ensures LiveBorn(Without(live, i), d) == LiveBorn(live, d) - if live[i].born == d then live[i].size else 0
  {
    var n := |live| - 1;
    if i == n {
      assert Without(live, i) == live[..n];
    } else {
      LiveRemove(live[..n], i, d);
      var rest := Without(live[..n], i);
      WithoutInit(live, i);
      LiveAppend(rest, live[n], d);
    }
  }

  lemma {:induction false} LiveMove(live: seq<Bo>, i: nat, to: Domain, d: Domain)
    requires i < |live|
    ensures LiveSize(live[i := live[i].(current := to)]) == LiveSize(live)
    ensures LiveBorn(live[i := live[i].(current := to)], d) == LiveBorn(live, d)
  {
    var n := |live| - 1;
    var moved := live[i := live[i].(current := to)];
    if i == n {
      assert moved[..n] == live[..n];
    } else {
      LiveMove(live[..n], i, to, d);
      assert moved[..n] == live[..n][i := live[i].(current := to)];
    }
  }

  lemma {:induction false} LiveSplit(live: seq<Bo>)
    ensures LiveSize(live) == LiveBorn(live, Vram) + LiveBorn(live, Tt) + LiveBorn(live, System)
  {
    if |live| > 0 {
      LiveSplit(live[..|live| - 1]);
    }
  }

  /** What a domain's book says it uses. */
  function Balance(b: Book): int {
    b.born - b.died + b.manager
  }

  /** A domain's counters agree with its book up to k wrap-arounds. */
  ghost predicate Agrees(s: State, d: Domain, k: int) {
    Used(s.counters, d) == Balance(BookOf(s, d)) + Turns(k)
  }

  /** A domain's book agrees with the objects: what was created in it is alive or dead. */
  ghost predicate Kept(s: State, d: Domain) {
    BookOf(s, d).born == LiveBorn(s.live, d) + BookOf(s, d).bornDead
  }

  /** Every death was booked where the object died and where it had been created. */
  ghost predicate DeathsKept(s: State) {
    s.vram.died + s.gtt.died + s.other.died == s.vram.bornDead + s.gtt.bornDead + s.other.bornDead
  }

  /** How one report shows in the usage of a domain, wrap-around included. */
  lemma UsedAfter(c: Counters, u: Usage, e: Counters, d: Domain) returns (wraps: int)
    requires e == Delta(u) || e == EndDelta(u)
    requires d != System
    ensures Used(Plus(c, e), d) == Used(c, d) + (if u.domain == d then Signed(u) else 0) + Turns(wraps)
  {
    var x: int, y: int := Used(c, d), Used(Plus(c, e), d);
    var rest := y - x - if u.domain == d then Signed(u) else 0;
    wraps := if rest == 0 then 0 else if rest > 0 then 1 else -1;
  }

  lemma StepAgrees(s: State, op: Op, d: Domain, k: int) returns (k': int)
    requires Agrees(s, d, k) && Enabled(s, op) && d != System
    ensures Agrees(Do(s, op), d, k')
  {
    k' := k;
    match op
    case Manager(u) =>
      var w := UsedAfter(s.counters, u, Delta(u), d);
      k' := k + w;
    case Create(size, at) =>
      var u := Usage(at, size, true);
      var w := UsedAfter(s.counters, u, EndDelta(u), d);
      k' := k + w;
    case Move(_, _) =>
    case Destroy(i, attached) =>
      var u := Usage(SeenIn(s.live[i], attached), s.live[i].size, false);
      var w := UsedAfter(s.counters, u, EndDelta(u), d);
      k' := k + w;
  }

  lemma BookStep(s: State, op: Op, d: Domain)
    requires Enabled(s, op)
    ensures BookOf(Do(s, op), d) == BookAfter(BookOf(s, d), d, s.live, op)
  {
  }

  lemma StepKept(s: State, op: Op, d: Domain)
    requires Kept(s, d) && Enabled(s, op)
    ensures Kept(Do(s, op), d)
  {
    BookStep(s, op, d);
    match op
    case Manager(_) =>
    case Create(size, at) => LiveAppend(s.live, Bo(size, at, at), d);
    case Move(i, to) => LiveMove(s.live, i, to, d);
    case Destroy(i, _) => LiveRemove(s.live, i, d);
  }

  lemma StepDeaths(s: State, op: Op)
    requires DeathsKept(s) && Enabled(s, op)
    ensures DeathsKept(Do(s, op))
  {
  }

  lemma {:induction false} ExecAgrees(s: State, ops: seq<Op>, d: Domain, k: int) returns (k': int)
    requires Agrees(s, d, k) && Legal(s, ops) && d != System
    ensures Agrees(Exec(s, ops), d, k')
    decreases |ops|
  {
    if ops == [] {
      k' := k;
    } else {
      k' := StepAgrees(s, ops[0], d, k);
      k' := ExecAgrees(Do(s, ops[0]), ops[1..], d, k');
    }
  }

  lemma {:induction false} ExecKept(s: State, ops: seq<Op>, d: Domain)
    requires Kept(s, d) && Legal(s, ops)
    ensures Kept(Exec(s, ops), d)
    decreases |ops|
  {
    if ops != [] {
      StepKept(s, ops[0], d);
      ExecKept(Do(s, ops[0]), ops[1..], d);
    }
  }

  lemma {:induction false} ExecDeaths(s: State, ops: seq<Op>)
    requires DeathsKept(s) && Legal(s, ops)
    ensures DeathsKept(Exec(s, ops))
    decreases |ops|
  {
    if ops != [] {
      StepDeaths(s, ops[0]);
      ExecDeaths(Do(s, ops[0]), ops[1..]);
    }
  }

  /** From initialization on, a domain agrees with its book, and its book with the objects. */
  lemma FromInit(s: State, ops: seq<Op>, d: Domain) returns (k: int)
    requires Init(s) && Legal(s, ops) && d != System
    ensures Agrees(Exec(s, ops), d, k) && Kept(Exec(s, ops), d)
  {
    InitAgrees(s, d);
    k := ExecAgrees(s, ops, d, 0);
    InitKept(s, d);
    ExecKept(s, ops, d);
  }

  lemma InitAgrees(s: State, d: Domain)
    requires Init(s)
    ensures Agrees(s, d, 0)
  {
  }

  lemma InitKept(s: State, d: Domain)
    requires Init(s)
    ensures Kept(s, d)
  {
  }

  ghost predicate Residual(s: State, d: Domain) {
    var b := BookOf(s, d);
    Same(Used(s.counters, d), LiveBorn(s.live, d) + b.manager + (b.bornDead - b.died))
  }

  /** vram_used + gtt_used is the size of all live objects plus the managers' contribution. */
  ghost predicate Balanced(s: State) {
    Same(Used(s.counters, Vram) + Used(s.counters, Tt), LiveSize(s.live) + s.vram.manager + s.gtt.manager)
  }

  /** A single domain: its usage is the bytes of the live objects created in it, plus what the
      managers contribute, plus a residue, the bytes of dead objects created in it less the bytes
      of objects that died in it. */
  lemma DomainResidue(s: State, ops: seq<Op>, d: Domain)
    requires Init(s) && Legal(s, ops) && d != System
    ensures Residual(Exec(s, ops), d)
  {
    var k := FromInit(s, ops, d);
    ResidueOfBook(Exec(s, ops), d, k);
  }

  lemma ResidueOfBook(s: State, d: Domain, k: int)
    requires Agrees(s, d, k) && Kept(s, d)
    ensures Residual(s, d)
  {
    var b := BookOf(s, d);
    MultipleIsSame(LiveBorn(s.live, d) + b.manager + (b.bornDead - b.died), k);
  }

  /** The bytes of all objects created outside VRAM and GTT in a run. */
  function BornOutside(ops: seq<Op>): nat {
    if |ops| == 0 then 0 else
      (if ops[0].Create? && ops[0].domain == System then ops[0].size else 0) + BornOutside(ops[1..])
  }

  /** The bytes of all objects destroyed outside them: without a resource, or last moved to system
      memory. */
  function DiedOutside(s: State, ops: seq<Op>): nat
    requires Legal(s, ops)
    decreases |ops|
  {
    if |ops| == 0 then 0 else
      (if ops[0].Destroy? && (!ops[0].attached || s.live[ops[0].i].current == System) then s.live[ops[0].i].size else 0)
      + DiedOutside(Do(s, ops[0]), ops[1..])
  }

  lemma {:induction false} OutsideBook(s: State, ops: seq<Op>)
    requires Legal(s, ops)
    ensures Exec(s, ops).other.born == s.other.born + BornOutside(ops)
    ensures Exec(s, ops).other.died == s.other.died + DiedOutside(s, ops)
    decreases |ops|
  {
    if |ops| > 0 {
      OutsideBook(Do(s, ops[0]), ops[1..]);
    }
  }

  /** Conservation, exactly: modulo 2^64, the two usages add up to the live objects plus the
      managers' contribution if and only if as many bytes were created outside VRAM and GTT as were
      destroyed outside them, an object without a resource counting as outside. */
  lemma ConservedExactly(s: State, ops: seq<Op>)
    requires Init(s) && Legal(s, ops)
    ensures Balanced(Exec(s, ops)) <==> Same(BornOutside(ops), DiedOutside(s, ops))
  {
    var j := FromInit(s, ops, Vram);
    var k := FromInit(s, ops, Tt);
    InitKept(s, System);
    ExecKept(s, ops, System);
    ExecDeaths(s, ops);
    BalanceOfBooks(Exec(s, ops), j, k);
    OutsideBook(s, ops);
  }

  lemma BalanceOfBooks(s: State, j: int, k: int)
    requires Agrees(s, Vram, j) && Agrees(s, Tt, k)
    requires Kept(s, Vram) && Kept(s, Tt) && Kept(s, System) && DeathsKept(s)
    ensures Balanced(s) <==> Same(s.other.born, s.other.died)
  {
    LiveSplit(s.live);
    ShiftBoth(LiveSize(s.live) + s.vram.manager + s.gtt.manager,
              Used(s.counters, Vram) + Used(s.counters, Tt), s.other.born, s.other.died, j + k);
  }

  lemma ShiftBoth(claim: int, sum: int, born: int, died: int, k: int)
    requires sum == claim - born + died + Turns(k)
    ensures Same(sum, claim) <==> Same(born, died)
  {
    if Same(sum, claim) {
      var m := SameIsMultiple(sum, claim);
      assert born == died + Turns(k - m);
      MultipleIsSame(died, k - m);
    }
    if Same(born, died) {
      var m := SameIsMultiple(born, died);
      assert sum == claim + Turns(k - m);
      MultipleIsSame(claim, k - m);
    }
  }

  /** Every object is created in VRAM or GTT and destroyed with a resource there. */
  predicate StaysTracked(s: State, ops: seq<Op>)
    requires Legal(s, ops)
    decreases |ops|
  {
    ops == [] ||
    (match ops[0] {
       case Create(_, d) => d != System
       case Destroy(i, attached) => attached && s.live[i].current != System
       case _ => true
     } && StaysTracked(Do(s, ops[0]), ops[1..]))
  }

  lemma {:induction false} NothingOutside(s: State, ops: seq<Op>)
    requires Legal(s, ops) && StaysTracked(s, ops)
    ensures BornOutside(ops) == 0 && DiedOutside(s, ops) == 0
    decreases |ops|
  {
    if |ops| > 0 {
      NothingOutside(Do(s, ops[0]), ops[1..]);
    }
  }

  /** Conservation for the runs the driver intends, whatever is moved between VRAM and GTT (or
      parked in system memory meanwhile). */
  lemma Conserved(s: State, ops: seq<Op>)
    requires Init(s) && Legal(s, ops) && StaysTracked(s, ops)
    ensures Balanced(Exec(s, ops))
  {
    NothingOutside(s, ops);
    ConservedExactly(s, ops);
  }

  lemma OneMore(s: State, ops: seq<Op>)
    requires |ops| > 0 && Enabled(s, ops[0]) && Legal(Do(s, ops[0]), ops[1..])
    requires StaysTracked(Do(s, ops[0]), ops[1..])
    requires ops[0].Create? ==> ops[0].domain != System
    requires ops[0].Destroy? ==> ops[0].attached && s.live[ops[0].i].current != System
    ensures Legal(s, ops) && StaysTracked(s, ops)
    ensures Exec(s, ops) == Exec(Do(s, ops[0]), ops[1..])
  {
  }

  function Report(d: Domain, size: u64, alloc: bool): Op {
    Manager(Usage(d, size, alloc))
  }

  /** The life of one object with all reports it causes: created in VRAM, moved to GTT and destroyed
      there.  `inVram` and `inGtt` are the sizes of its two resources. */
  function MovedLife(size: u64, inVram: u64, inGtt: u64): seq<Op> {
    [Report(Vram, inVram, true), Create(size, Vram),
     Report(Tt, inGtt, true), Move(0, Tt), Report(Vram, inVram, false),
     Destroy(0, true), Report(Tt, inGtt, false)]
  }

  /** The last three steps of it. */
  lemma MovedDeath(s: State, size: u64, inVram: u64, inGtt: u64)
    requires s.live == [Bo(size, Vram, Tt)]
    ensures var ops := MovedLife(size, inVram, inGtt)[4..]; Legal(s, ops) && StaysTracked(s, ops)
    ensures var e := Exec(s, MovedLife(size, inVram, inGtt)[4..]);
      && |e.live| == 0
      && e.vram == s.vram.(bornDead := s.vram.bornDead + size, manager := s.vram.manager - inVram)
      && e.gtt == s.gtt.(died := s.gtt.died + size, manager := s.gtt.manager - inGtt)
  {
    var ops := MovedLife(size, inVram, inGtt)[4..];
    var s1 := Do(s, ops[0]);
    var s2 := Do(s1, ops[1]);
    assert |s2.live| == 0;
    OneMore(s2, ops[2..]);
    OneMore(s1, ops[1..]);
    OneMore(s, ops);
  }

  lemma MovedLifeRuns(s: State, size: u64, inVram: u64, inGtt: u64)
    requires |s.live| == 0
    ensures var ops := MovedLife(size, inVram, inGtt); Legal(s, ops) && StaysTracked(s, ops)
    ensures var e := Exec(s, MovedLife(size, inVram, inGtt));
      && |e.live| == 0
      && e.vram == s.vram.(born := s.vram.born + size, bornDead := s.vram.bornDead + size)
      && e.gtt == s.gtt.(died := s.gtt.died + size)
  {
    var ops := MovedLife(size, inVram, inGtt);
    var s1 := Do(s, ops[0]);
    var s2 := Do(s1, ops[1]);
    assert s2.live == [Bo(size, Vram, Vram)];
    var s3 := Do(s2, ops[2]);
    var s4 := Do(s3, ops[3]);
    assert s4.live == [Bo(size, Vram, Tt)];
    MovedDeath(s4, size, inVram, inGtt);
    OneMore(s3, ops[3..]);
    OneMore(s2, ops[2..]);
    OneMore(s1, ops[1..]);
    OneMore(s, ops);
  }

  /** A single domain does wrap: after such a life no object and no resource is left, and what the
      managers reported cancels out, yet GTT usage reads 2^64 - size and VRAM usage size. */
  lemma OneDomainWraps(s: State, size: u64, inVram: u64, inGtt: u64)
    requires Init(s) && size > 0
    ensures var ops := MovedLife(size, inVram, inGtt); Legal(s, ops) && StaysTracked(s, ops)
    ensures var e := Exec(s, MovedLife(size, inVram, inGtt));
      && |e.live| == 0 && e.vram.manager == 0 && e.gtt.manager == 0
      && Used(e.counters, Tt) == MOD - size && Used(e.counters, Vram) == size
  {
    var ops := MovedLife(size, inVram, inGtt);
    MovedLifeRuns(s, size, inVram, inGtt);
    var j := FromInit(s, ops, Vram);
    var k := FromInit(s, ops, Tt);
  }

  lemma First(s: State, op: Op, ops: seq<Op>)
    requires Enabled(s, op) && Legal(Do(s, op), ops)
    ensures Legal(s, [op] + ops) && Exec(s, [op] + ops) == Exec(Do(s, op), ops)
    ensures DiedOutside(s, [op] + ops) == DiedOutside(s, [op]) + DiedOutside(Do(s, op), ops)
    ensures BornOutside([op] + ops) == BornOutside([op]) + BornOutside(ops)
  {
    assert ([op] + ops)[1..] == ops && |[op][1..]| == 0;
  }

  /** An object may be born and die anywhere, and it counts as outside by where it is born and, unless it
      dies without a resource, by where it was moved. */
  lemma AnyLife(s: State, size: u64, born: Domain, to: Domain, attached: bool)
    ensures var n := |s.live|; var ops := [Create(size, born)] + ([Move(n, to)] + [Destroy(n, attached)]);
      && Legal(s, ops) && Exec(s, ops).live == s.live
      && BornOutside(ops) == (if born == System then size else 0)
      && DiedOutside(s, ops) == (if !attached || to == System then size else 0)
  {
    var n := |s.live|;
    var s1 := Do(s, Create(size, born));
    var s2 := Do(s1, Move(n, to));
    assert s2.live == s.live + [Bo(size, born, to)];
    var s3 := Do(s2, Destroy(n, attached));
    assert s3.live == s.live;
    First(s2, Destroy(n, attached), []);
    assert [Destroy(n, attached)] + [] == [Destroy(n, attached)];
    First(s1, Move(n, to), [Destroy(n, attached)]);
    First(s, Create(size, born), [Move(n, to)] + [Destroy(n, attached)]);
  }

  /** An object that dies without a resource is never taken off: created in VRAM and destroyed like
      that, it leaves nothing behind but a VRAM usage of its size. */
  lemma UnattachedDeathStays(s: State, size: u64)
    requires Init(s)
    ensures var ops := [Create(size, Vram), Destroy(0, false)];
      && Legal(s, ops) && |Exec(s, ops).live| == 0
      && Used(Exec(s, ops).counters, Vram) == size && Used(Exec(s, ops).counters, Tt) == 0
  {
    var ops := [Create(size, Vram), Destroy(0, false)];
    var s1 := Do(s, ops[0]);
    assert s1.live == [Bo(size, Vram, Vram)];
    var s2 := Do(s1, ops[1]);
    assert ops[1..] == [Destroy(0, false)];
    assert Legal(s1, ops[1..]) && Exec(s1, ops[1..]) == s2;
  }

  /** The net of the managers' reports about a domain. */
  function ManagerNet(ops: seq<Op>, d: Domain): int {
    if |ops| == 0 then 0 else
      (if ops[0].Manager? && ops[0].usage.domain == d then Signed(ops[0].usage) else 0) + ManagerNet(ops[1..], d)
  }

  /** That is what a domain's book has under manager. */
  lemma {:induction false} ManagerBook(s: State, ops: seq<Op>, d: Domain)
    requires Legal(s, ops)
    ensures BookOf(Exec(s, ops), d).manager == BookOf(s, d).manager + ManagerNet(ops, d)
    decreases |ops|
  {
    if |ops| > 0 {
      ManagerBook(Do(s, ops[0]), ops[1..], d);
    }
  }
}
