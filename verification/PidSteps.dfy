/** The pid allocator as a state machine: harts that take turns step by step, serialised by the spinlock. */
module PidSteps {
  import opened Bitmap

  const PID_MAX := 8192

  /** Where a hart is in pid_alloc or pid_free. From Scan to Failed and from Clear to Cleared it holds the lock. */
  datatype Hart =
    | Idle
    | WantAlloc | Scan(i: nat) | Mark(pid: nat, i: nat) | Move(pid: nat, i: nat) | Done(pid: nat) | Failed
    | WantFree(pid: nat) | Clear(pid: nat) | Cleared

  /** What the cursor met, in order, as it moved. */
  datatype Event = Reserved | SeenLive(pid: nat) | Issued(pid: nat)

  /** `held` are the pids returned to callers and not yet handed to pid_free; `passed` is the cursor's history. */
  datatype State = State(bits: seq<Byte>, next: nat, locked: bool, harts: seq<Hart>, held: multiset<nat>,
    passed: seq<Event>)

  function Cursor(next: nat, i: nat): nat { (next + i) % PID_MAX }

  function EventAt(pid: nat): Event { if pid == 0 then Reserved else SeenLive(pid) }

  function PidOf(e: Event): nat { if e.Reserved? then 0 else e.pid }

  function Events(next: nat, i: nat): (r: seq<Event>)
    ensures |r| == i && forall j :: 0 <= j < i ==> r[j] == EventAt(Cursor(next, j))
  {
    seq(i, (j: nat) => EventAt(Cursor(next, j)))
  }

  ghost predicate Init(s: State) {
    s.bits == NoBits(PID_MAX / 8) && s.next == 1 && !s.locked && s.held == multiset{} && s.passed == []
    && forall h :: 0 <= h < |s.harts| ==> s.harts[h] == Idle
  }

  /** One atomic step of hart `h`; a hart that finds the lock taken stays where it is. */
  ghost predicate Step(s: State, s': State, h: nat) {
    h < |s.harts| && |s.bits| == PID_MAX / 8 &&
    var at := (x: Hart) => s.harts[h := x];
    match s.harts[h]
    case Idle =>
      s' == s.(harts := at(WantAlloc))
        || exists p :: p in s.held && s' == s.(harts := at(WantFree(p)), held := s.held - multiset{p})
    case WantAlloc => s' == if s.locked then s else s.(locked := true, harts := at(Scan(0)))
    case WantFree(p) => s' == if s.locked then s else s.(locked := true, harts := at(Clear(p)))
    case Scan(i) =>
      var p := Cursor(s.next, i);
      var next := if i >= PID_MAX then Failed else if p == 0 || Bit(s.bits, p) then Scan(i + 1) else Mark(p, i);
      s' == s.(harts := at(next))
    case Mark(p, i) => p < PID_MAX && s' == s.(bits := SetBit(s.bits, p), harts := at(Move(p, i)))
    case Move(p, i) => s' ==
      s.(next := (p + 1) % PID_MAX, passed := s.passed + Events(s.next, i) + [Issued(p)], harts := at(Done(p)))
    case Done(p) => s' == s.(locked := false, held := s.held + multiset{p}, harts := at(Idle))
    case Failed => s' == s.(locked := false, harts := at(Idle))
    case Clear(p) => p < PID_MAX && s' == s.(bits := ClearBit(s.bits, p), harts := at(Cleared))
    case Cleared => s' == s.(locked := false, harts := at(Idle))
  }

  predicate Critical(x: Hart) { x.Scan? || x.Mark? || x.Move? || x.Done? || x.Failed? || x.Clear? || x.Cleared? }

  /** The hart has a pid whose bit is set and that no caller holds. */
  predicate Claims(x: Hart, p: nat) { (x.Move? || x.Done? || x.WantFree? || x.Clear?) && x.pid == p }

  ghost predicate Claimed(harts: seq<Hart>, p: nat) { exists h :: 0 <= h < |harts| && Claims(harts[h], p) }

  /** Every pid the scan has passed is pid 0 or live. */
  ghost predicate AllSeen(bits: seq<Byte>, next: nat, n: nat)
    requires |bits| == PID_MAX / 8
  {
    forall j :: 0 <= j < n ==> Cursor(next, j) == 0 || Bit(bits, Cursor(next, j))
  }

  /** The lock is taken exactly while a hart is inside, and then only one is. */
  ghost predicate Exclusive(locked: bool, harts: seq<Hart>) {
    && (forall h :: 0 <= h < |harts| && Critical(harts[h]) ==> locked)
    && (locked ==> exists h :: 0 <= h < |harts| && Critical(harts[h]))
    && (forall h, g :: 0 <= h < g < |harts| ==> !(Critical(harts[h]) && Critical(harts[g])))
  }

  ghost predicate HartOk(bits: seq<Byte>, next: nat, x: Hart)
    requires |bits| == PID_MAX / 8
  {
    match x
    case Scan(i) => i <= PID_MAX && AllSeen(bits, next, i)
    case Mark(p, i) => 0 < p < PID_MAX && p == Cursor(next, i) && !Bit(bits, p) && AllSeen(bits, next, i)
    case Move(p, i) => 0 < p < PID_MAX && p == Cursor(next, i) && AllSeen(bits, next, i)
    case Failed => AllSeen(bits, next, PID_MAX)
    case _ => true
  }

  /** The bit of a pid is set exactly when one caller or one hart has it; nobody shares a pid. */
  ghost predicate OneOwner(bits: seq<Byte>, held: multiset<nat>, harts: seq<Hart>)
    requires |bits| == PID_MAX / 8
  {
    && (forall p: nat {:trigger Bit(bits, p)} :: 0 < p < PID_MAX ==> (Bit(bits, p) <==> p in held || Claimed(harts, p)))
    && (forall p :: p in held ==> held[p] == 1 && 0 < p < PID_MAX && !Claimed(harts, p))
    && (forall h, p: nat :: 0 <= h < |harts| && Claims(harts[h], p) ==> 0 < p < PID_MAX)
    && (forall h, g, p: nat :: 0 <= h < g < |harts| ==> !(Claims(harts[h], p) && Claims(harts[g], p)))
  }

  /** The history lists the pids in ring order, starting at 1. */
  ghost predicate InOrder(passed: seq<Event>, next: nat) {
    && (forall k :: 0 <= k < |passed| ==> PidOf(passed[k]) == (1 + k) % PID_MAX)
    && next == (1 + |passed|) % PID_MAX
  }

  ghost predicate Inv(s: State) {
    && |s.bits| == PID_MAX / 8 && s.next < PID_MAX
    && Exclusive(s.locked, s.harts) && OneOwner(s.bits, s.held, s.harts) && InOrder(s.passed, s.next)
    && forall h :: 0 <= h < |s.harts| ==> HartOk(s.bits, s.next, s.harts[h])
  }

  lemma ClaimedAfter(harts: seq<Hart>, h: nat, x: Hart, p: nat)
    requires h < |harts|
    ensures Claimed(harts[h := x], p) <==> Claims(x, p) || exists g :: 0 <= g < |harts| && g != h && Claims(harts[g], p)
    ensures Claimed(harts, p) <==> Claims(harts[h], p) || exists g :: 0 <= g < |harts| && g != h && Claims(harts[g], p)
  {
    var harts' := harts[h := x];
    assert harts'[h] == x && forall g :: 0 <= g < |harts| && g != h ==> harts'[g] == harts[g];
  }

  /** A step that changes neither bits nor claims. */
  lemma SameClaims(bits: seq<Byte>, held: multiset<nat>, harts: seq<Hart>, h: nat, x: Hart)
    requires |bits| == PID_MAX / 8 && OneOwner(bits, held, harts) && h < |harts|
      && forall p: nat :: Claims(x, p) <==> Claims(harts[h], p)
    ensures OneOwner(bits, held, harts[h := x])
  {
    hide Bit, Claims;
    forall p: nat ensures Claimed(harts[h := x], p) <==> Claimed(harts, p) {
      ClaimedAfter(harts, h, x, p);
    }
    hide Claimed;
  }

  /** Marking a free pid. */
  lemma MarkOwner(bits: seq<Byte>, held: multiset<nat>, harts: seq<Hart>, h: nat, p: nat, x: Hart)
    requires |bits| == PID_MAX / 8 && OneOwner(bits, held, harts) && h < |harts| && 0 < p < PID_MAX && !Bit(bits, p)
    requires (forall q: nat :: !Claims(harts[h], q)) && forall q: nat :: Claims(x, q) <==> q == p
    ensures OneOwner(SetBit(bits, p), held, harts[h := x])
  {
    hide Bit, SetBit, Claims;
    assert p !in held && !Claimed(harts, p);
    forall q: nat ensures Claimed(harts[h := x], q) <==> Claimed(harts, q) || q == p {
      ClaimedAfter(harts, h, x, q);
    }
    var bits' := SetBit(bits, p);
    forall q: nat | 0 < q < PID_MAX ensures Bit(bits', q) <==> q in held || Claimed(harts[h := x], q) {
      SetBitAt(bits, p, q);
    }
    assert forall g :: 0 <= g < |harts| && g != h ==> !Claims(harts[g], p);
  }

  /** Clearing a pid that only this hart has. */
  lemma ClearOwner(bits: seq<Byte>, held: multiset<nat>, harts: seq<Hart>, h: nat, p: nat, x: Hart)
    requires |bits| == PID_MAX / 8 && OneOwner(bits, held, harts) && h < |harts| && p < PID_MAX
    requires (forall q: nat :: Claims(harts[h], q) <==> q == p) && forall q: nat :: !Claims(x, q)
    ensures OneOwner(ClearBit(bits, p), held, harts[h := x])
  {
    hide Bit, ClearBit, Claims;
    assert Claims(harts[h], p);
    forall q: nat ensures Claimed(harts[h := x], q) <==> Claimed(harts, q) && q != p {
      ClaimedAfter(harts, h, x, q);
    }
    assert Claimed(harts, p) && p !in held;
    var bits' := ClearBit(bits, p);
    forall q: nat | 0 < q < PID_MAX ensures Bit(bits', q) <==> q in held || Claimed(harts[h := x], q) {
      SetBitAt(bits, p, q);
    }
  }

  /** A pid passes from the hart to the caller. */
  lemma GiveOwner(bits: seq<Byte>, held: multiset<nat>, harts: seq<Hart>, h: nat, p: nat, x: Hart)
    requires |bits| == PID_MAX / 8 && OneOwner(bits, held, harts) && h < |harts|
    requires (forall q: nat :: Claims(harts[h], q) <==> q == p) && forall q: nat :: !Claims(x, q)
    ensures p !in held && OneOwner(bits, held + multiset{p}, harts[h := x])
  {
    hide Bit, Claims;
    assert Claims(harts[h], p);
    forall q: nat ensures Claimed(harts[h := x], q) <==> Claimed(harts, q) && q != p {
      ClaimedAfter(harts, h, x, q);
    }
    assert Claimed(harts, p);
    hide Claimed;
  }

  /** A pid passes from the caller to the hart that will free it. */
  lemma TakeOwner(bits: seq<Byte>, held: multiset<nat>, harts: seq<Hart>, h: nat, p: nat, x: Hart)
    requires |bits| == PID_MAX / 8 && OneOwner(bits, held, harts) && h < |harts| && p in held
    requires (forall q: nat :: !Claims(harts[h], q)) && forall q: nat :: Claims(x, q) <==> q == p
    ensures OneOwner(bits, held - multiset{p}, harts[h := x])
  {
    hide Bit, Claims;
    forall q: nat ensures Claimed(harts[h := x], q) <==> Claimed(harts, q) || q == p {
      ClaimedAfter(harts, h, x, q);
    }
    assert forall g :: 0 <= g < |harts| && g != h ==> !Claims(harts[g], p);
    hide Claimed;
  }

  lemma OthersOutside(s: State, h: nat)
    requires Inv(s) && h < |s.harts| && Critical(s.harts[h])
    ensures s.locked && forall g :: 0 <= g < |s.harts| && g != h ==> !Critical(s.harts[g])
  {
  }

  /** While a hart is inside, the steps of the others change neither the bitmap nor the cursor, so its loop runs as if
      alone. */
  lemma OthersWait(s: State, s': State, h: nat, g: nat)
    requires Inv(s) && h < |s.harts| && Critical(s.harts[h]) && g != h && Step(s, s', g)
    ensures s'.bits == s.bits && s'.next == s.next && s'.passed == s.passed && s'.locked && h < |s'.harts|
      && s'.harts[h] == s.harts[h]
  {
    OthersOutside(s, h);
    hide Bit, OneOwner, Exclusive, InOrder, HartOk;
    assert !Critical(s.harts[g]);
  }

  lemma ExclusiveAfter(locked: bool, harts: seq<Hart>, h: nat, x: Hart, locked': bool)
    requires Exclusive(locked, harts) && h < |harts|
    requires Critical(x) ==> locked' && (Critical(harts[h]) || !locked)
    requires Critical(harts[h]) || (locked ==> locked')
    requires locked' ==> Critical(x) || (locked && !Critical(harts[h]))
    ensures Exclusive(locked', harts[h := x])
  {
    var harts' := harts[h := x];
    assert forall g :: 0 <= g < |harts| ==> harts'[g] == if g == h then x else harts[g];
    if locked' && Critical(x) {
      assert Critical(harts'[h]);
    }
  }

  lemma SeenMore(bits: seq<Byte>, next: nat, i: nat)
    requires |bits| == PID_MAX / 8 && AllSeen(bits, next, i) && (Cursor(next, i) == 0 || Bit(bits, Cursor(next, i)))
    ensures AllSeen(bits, next, i + 1)
  {
    hide Bit, Cursor;
  }

  lemma SeenAfterMark(bits: seq<Byte>, next: nat, i: nat, p: nat)
    requires |bits| == PID_MAX / 8 && AllSeen(bits, next, i) && p < PID_MAX
    ensures AllSeen(SetBit(bits, p), next, i)
  {
    hide Bit, SetBit;
    forall j | 0 <= j < i ensures Cursor(next, j) == 0 || Bit(SetBit(bits, p), Cursor(next, j)) {
      SetBitAt(bits, p, Cursor(next, j));
    }
  }

  lemma CursorAt(n: nat, next: nat, j: nat)
    requires next == (1 + n) % PID_MAX
    ensures Cursor(next, j) == (1 + n + j) % PID_MAX && (Cursor(next, j) + 1) % PID_MAX == (1 + n + j + 1) % PID_MAX
  {
  }

  lemma InOrderAfter(passed: seq<Event>, next: nat, i: nat, p: nat)
    requires InOrder(passed, next) && p == Cursor(next, i)
    ensures InOrder(passed + Events(next, i) + [Issued(p)], (p + 1) % PID_MAX)
  {
    var passed' := passed + Events(next, i) + [Issued(p)];
    CursorAt(|passed|, next, i);
    hide Cursor;
    forall k | 0 <= k < |passed'| ensures PidOf(passed'[k]) == (1 + k) % PID_MAX {
      if k >= |passed| {
        CursorAt(|passed|, next, k - |passed|);
      }
    }
  }

  /** Every step of every hart keeps the invariant. */
  lemma StepKeeps(s: State, s': State, h: nat)
    requires Inv(s) && Step(s, s', h)
    ensures Inv(s')
  {
    var x := s.harts[h];
    if Critical(x) {
      OthersOutside(s, h);
    }
    match x
    case Idle => StepIdle(s, s', h);
    case WantAlloc => StepEnter(s, s', h);
    case WantFree(p) => StepEnter(s, s', h);
    case Scan(i) => StepScan(s, s', h);
    case Mark(p, i) => StepMark(s, s', h);
    case Move(p, i) => StepMove(s, s', h);
    case Done(p) => StepLeave(s, s', h);
    case Failed => StepLeave(s, s', h);
    case Clear(p) => StepClear(s, s', h);
    case Cleared => StepLeave(s, s', h);
  }

  lemma StepIdle(s: State, s': State, h: nat)
    requires Inv(s) && Step(s, s', h) && s.harts[h] == Idle
    ensures Inv(s')
  {
    hide Bit, AllSeen, OneOwner, Exclusive, InOrder;
    var x := s'.harts[h];
    ExclusiveAfter(s.locked, s.harts, h, x, s.locked);
    if x == WantAlloc {
      SameClaims(s.bits, s.held, s.harts, h, x);
    } else {
      TakeOwner(s.bits, s.held, s.harts, h, x.pid, x);
    }
  }

  lemma StepEnter(s: State, s': State, h: nat)
    requires Inv(s) && Step(s, s', h) && (s.harts[h].WantAlloc? || s.harts[h].WantFree?)
    ensures Inv(s')
  {
    hide Bit, OneOwner, Exclusive, InOrder;
    if !s.locked {
      var x := s'.harts[h];
      ExclusiveAfter(s.locked, s.harts, h, x, true);
      SameClaims(s.bits, s.held, s.harts, h, x);
    }
  }

  lemma StepScan(s: State, s': State, h: nat)
    requires Inv(s) && Step(s, s', h) && s.harts[h].Scan?
    ensures Inv(s')
  {
    OthersOutside(s, h);
    hide Bit, OneOwner, Exclusive, InOrder, AllSeen, Cursor;
    var i, x := s.harts[h].i, s'.harts[h];
    assert HartOk(s.bits, s.next, s.harts[h]);
    ExclusiveAfter(s.locked, s.harts, h, x, s.locked);
    SameClaims(s.bits, s.held, s.harts, h, x);
    if x.Scan? {
      SeenMore(s.bits, s.next, i);
    } else if x.Mark? {
      CursorRange(s.next, i);
    }
  }

  lemma CursorRange(next: nat, i: nat)
    ensures Cursor(next, i) < PID_MAX
  {
  }

  lemma StepMark(s: State, s': State, h: nat)
    requires Inv(s) && Step(s, s', h) && s.harts[h].Mark?
    ensures Inv(s')
  {
    OthersOutside(s, h);
    hide Bit, SetBit, OneOwner, Exclusive, InOrder, AllSeen, Cursor;
    var i, p, x := s.harts[h].i, s.harts[h].pid, s'.harts[h];
    assert HartOk(s.bits, s.next, s.harts[h]);
    ExclusiveAfter(s.locked, s.harts, h, x, s.locked);
    MarkOwner(s.bits, s.held, s.harts, h, p, x);
    SeenAfterMark(s.bits, s.next, i, p);
  }

  lemma StepMove(s: State, s': State, h: nat)
    requires Inv(s) && Step(s, s', h) && s.harts[h].Move?
    ensures Inv(s')
  {
    OthersOutside(s, h);
    hide Bit, OneOwner, Exclusive, InOrder, AllSeen, Cursor;
    var i, p, x := s.harts[h].i, s.harts[h].pid, s'.harts[h];
    assert HartOk(s.bits, s.next, s.harts[h]);
    ExclusiveAfter(s.locked, s.harts, h, x, s.locked);
    SameClaims(s.bits, s.held, s.harts, h, x);
    InOrderAfter(s.passed, s.next, i, p);
  }

  lemma StepClear(s: State, s': State, h: nat)
    requires Inv(s) && Step(s, s', h) && s.harts[h].Clear?
    ensures Inv(s')
  {
    OthersOutside(s, h);
    hide Bit, ClearBit, OneOwner, Exclusive, InOrder, AllSeen;
    var p, x := s.harts[h].pid, s'.harts[h];
    ExclusiveAfter(s.locked, s.harts, h, x, s.locked);
    ClearOwner(s.bits, s.held, s.harts, h, p, x);
  }

  lemma StepLeave(s: State, s': State, h: nat)
    requires Inv(s) && Step(s, s', h) && (s.harts[h].Done? || s.harts[h].Failed? || s.harts[h].Cleared?)
    ensures Inv(s')
  {
    OthersOutside(s, h);
    hide Bit, OneOwner, Exclusive, InOrder, AllSeen;
    ExclusiveAfter(s.locked, s.harts, h, Idle, false);
    if s.harts[h].Done? {
      GiveOwner(s.bits, s.held, s.harts, h, s.harts[h].pid, Idle);
    } else {
      SameClaims(s.bits, s.held, s.harts, h, Idle);
    }
  }

  lemma InitHolds(s: State)
    requires Init(s)
    ensures Inv(s)
  {
    hide Bit;
  }

  ghost predicate SomeStep(s: State, s': State) { exists h :: Step(s, s', h) }

  /** Some interleaving of the harts' steps. */
  ghost predicate Run(run: seq<State>) {
    run != [] && Init(run[0]) && forall k, m :: 0 <= k < m < |run| && m == k + 1 ==> SomeStep(run[k], run[m])
  }

  lemma {:induction false} EveryState(run: seq<State>, k: nat)
    requires Run(run) && k < |run|
    ensures Inv(run[k])
  {
    hide Step, Init, Inv;
    if k == 0 {
      InitHolds(run[0]);
    } else {
      var m := k - 1;
      EveryState(run, m);
      assert SomeStep(run[m], run[k]);
      var h :| Step(run[m], run[k], h);
      StepKeeps(run[m], run[k], h);
    }
  }

  /** In every interleaving no pid is held twice, and a pid about to be returned is held by nobody. */
  lemma PidsAreExclusive(run: seq<State>, k: nat, h: nat)
    requires Run(run) && k < |run| && h < |run[k].harts|
    ensures var s := run[k];
      && (forall p :: p in s.held ==> s.held[p] == 1 && 0 < p < PID_MAX)
      && (s.harts[h].Done? ==> s.harts[h].pid !in s.held && 0 < s.harts[h].pid < PID_MAX)
  {
    EveryState(run, k);
    hide Bit, Step, Init, Run, AllSeen, HartOk;
    var s := run[k];
    if s.harts[h].Done? {
      var p := s.harts[h].pid;
      assert Claims(s.harts[h], p);
      assert Claimed(s.harts, p);
    }
  }

  /** An allocation fails only after finding every pid from 1 to PID_MAX - 1 live, and one that moves the cursor has
      found every pid it moves over live. */
  lemma ScanSawAll(run: seq<State>, k: nat, h: nat)
    requires Run(run) && k < |run| && h < |run[k].harts|
    ensures var s := run[k];
      && |s.bits| == PID_MAX / 8
      && (s.harts[h] == Failed ==> forall p :: 0 < p < PID_MAX ==> Bit(s.bits, p))
      && (s.harts[h].Move? ==> s.harts[h].pid == Cursor(s.next, s.harts[h].i) && AllSeen(s.bits, s.next, s.harts[h].i))
  {
    EveryState(run, k);
    hide Bit, Step, Init, Run, Cursor, OneOwner, Exclusive, InOrder;
    var s := run[k];
    assert HartOk(s.bits, s.next, s.harts[h]);
    if s.harts[h] == Failed {
      forall p | 0 < p < PID_MAX ensures Bit(s.bits, p) {
        CursorHits(s.next, p);
      }
    }
  }

  lemma CursorHits(next: nat, p: nat)
    requires next < PID_MAX && p < PID_MAX
    ensures exists j :: 0 <= j < PID_MAX && Cursor(next, j) == p
  {
    var j := if p >= next then p - next else p + PID_MAX - next;
    assert Cursor(next, j) == p;
  }

  /** Two positions of one pid are a whole turn apart, and every other pid lies between them. */
  lemma FullTurn(k1: nat, k2: nat, p: nat, q: nat) returns (k: nat)
    requires k1 < k2 && (1 + k1) % PID_MAX == p == (1 + k2) % PID_MAX && q < PID_MAX && q != p
    ensures k1 < k < k2 && (1 + k) % PID_MAX == q
  {
    k := k1 + if q > p then q - p else q + PID_MAX - p;
    assert k2 - k1 >= PID_MAX;
  }

  /** The step from state `m` of a run wrote entry `k` of the history. */
  ghost predicate WroteAt(run: seq<State>, m: nat, k: nat) {
    m + 1 < |run| && |run[m].passed| <= k < |run[m + 1].passed|
  }

  /** The pid's bit is set. */
  ghost predicate LiveIn(s: State, q: nat) { |s.bits| == PID_MAX / 8 && 0 < q < PID_MAX && Bit(s.bits, q) }

  /** The history only grows, and what a step adds as seen live is live in the state before it. */
  lemma StepHistory(s: State, s': State, h: nat)
    requires Inv(s) && Step(s, s', h)
    ensures s.passed <= s'.passed
    ensures forall k, q :: |s.passed| <= k < |s'.passed| && s'.passed[k] == SeenLive(q) ==> LiveIn(s, q)
  {
    hide Bit, OneOwner, Exclusive, InOrder, Cursor;
    if s.harts[h].Move? {
      assert HartOk(s.bits, s.next, s.harts[h]);
      var i := s.harts[h].i;
      forall k, q | |s.passed| <= k < |s'.passed| && s'.passed[k] == SeenLive(q) ensures LiveIn(s, q) {
        var j := k - |s.passed|;
        assert s'.passed[k] == (Events(s.next, i) + [Issued(s.harts[h].pid)])[j];
        CursorRange(s.next, j);
      }
    }
  }

  /** Every pid in the history that was seen live was live in the state whose step wrote that entry. */
  lemma {:induction false} SeenWasLive(run: seq<State>, n: nat, k: nat, q: nat)
    requires Run(run) && n < |run| && k < |run[n].passed| && run[n].passed[k] == SeenLive(q)
    ensures exists m: nat :: m < n && WroteAt(run, m, k) && LiveIn(run[m], q)
    decreases n
  {
    hide Step, Inv, LiveIn;
    if n > 0 {
      hide Init;
      var m := n - 1;
      EveryState(run, m);
      assert SomeStep(run[m], run[n]);
      var h :| Step(run[m], run[n], h);
      StepHistory(run[m], run[n], h);
      if k < |run[m].passed| {
        SeenWasLive(run, m, k, q);
      } else {
        assert WroteAt(run, m, k);
      }
    }
  }

  /** Between two issues of one pid the cursor has met every other pid, and issued it or found it live: its bit was set
      in the state whose step moved the cursor past it. */
  lemma RoundRobin(run: seq<State>, n: nat, k1: nat, k2: nat, p: nat, q: nat)
    requires Run(run) && n < |run| && k1 < k2 < |run[n].passed| && run[n].passed[k1] == run[n].passed[k2] == Issued(p)
    requires 0 < q < PID_MAX && q != p
    ensures exists k :: k1 < k < k2 && (run[n].passed[k] == Issued(q) || FoundLive(run, n, k, q))
  {
    EveryState(run, n);
    hide Run, Step, Init, OneOwner, Exclusive, HartOk, LiveIn, WroteAt;
    var passed := run[n].passed;
    assert PidOf(passed[k1]) == (1 + k1) % PID_MAX && PidOf(passed[k2]) == (1 + k2) % PID_MAX;
    var k := FullTurn(k1, k2, p, q);
    assert PidOf(passed[k]) == q;
    if passed[k] == SeenLive(q) {
      SeenWasLive(run, n, k, q);
      assert FoundLive(run, n, k, q);
    }
  }

  /** Entry `k` says seen live, and in the state whose step wrote it the pid's bit was set. */
  ghost predicate FoundLive(run: seq<State>, n: nat, k: nat, q: nat)
    requires n < |run|
  {
    k < |run[n].passed| && run[n].passed[k] == SeenLive(q)
      && exists m: nat :: m < n && WroteAt(run, m, k) && LiveIn(run[m], q)
  }
}
