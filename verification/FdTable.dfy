/** The file-descriptor table: allocation, installation, closing and growth. */
module FdTable {
  type Flags = bv32

  const FD_ALLOCATED: Flags := 0x100_0000
  const MAX_FDS := 0x8000_0000
  const EBADF := 9
  const ENOMEM := 12
  const EINVAL := 22
  const EMFILE := 24

  predicate Allocated(f: Flags) { f & FD_ALLOCATED != 0 }

  /** The arrays as values: an open file per slot (0 for none), the slot flags, and the allocation hint. */
  datatype Fds = Fds(files: seq<nat>, flags: seq<Flags>, next: nat)

  ghost predicate Shape(t: Fds) { |t.files| == |t.flags| && t.next <= |t.files| && 0 < |t.files| <= MAX_FDS }

  predicate InUse(t: Fds, i: nat)
    requires i < |t.files| == |t.flags|
  {
    t.files[i] != 0 || Allocated(t.flags[i])
  }

  ghost predicate UsedBetween(t: Fds, lo: nat, hi: nat)
    requires |t.files| == |t.flags| && hi <= |t.files|
  {
    forall i :: lo <= i < hi ==> InUse(t, i)
  }

  /** Every slot below the hint is in use. */
  ghost predicate LowFull(t: Fds)
    requires Shape(t)
  {
    UsedBetween(t, 0, t.next)
  }

  function Grown(t: Fds, size: nat): Fds
    requires |t.files| == |t.flags| <= size
  {
    t.(files := t.files + seq(size - |t.files|, _ => 0), flags := t.flags + seq(size - |t.flags|, _ => 0))
  }

  function Marked(t: Fds, fd: nat, flags: Flags): Fds
    requires fd < |t.files| == |t.flags|
  {
    t.(files := t.files[fd := 0], flags := t.flags[fd := flags | FD_ALLOCATED], next := fd + 1)
  }

  function Cleared(f: Flags): Flags { f & !FD_ALLOCATED }

  function Closed(t: Fds, fd: nat): Fds
    requires |t.files| == |t.flags|
  {
    if fd >= |t.files| then t
    else if t.files[fd] != 0 then Fds(t.files[fd := 0], t.flags[fd := 0], if fd < t.next then fd else t.next)
    else t.(flags := t.flags[fd := Cleared(t.flags[fd])])
  }

  /** A closed table field by field, as the code writes it: the flag is cleared in any case. */
  lemma ClosedIs(t: Fds, fd: nat)
    requires |t.files| == |t.flags|
    ensures fd >= |t.files| ==> Closed(t, fd) == t
    ensures fd < |t.files| && t.files[fd] == 0 ==>
      Closed(t, fd) == Fds(t.files, t.flags[fd := Cleared(t.flags[fd])], t.next)
    ensures fd < |t.files| && t.files[fd] != 0 ==>
      Closed(t, fd) == Fds(t.files[fd := 0], t.flags[fd := 0][fd := Cleared(0)], if fd < t.next then fd else t.next)
  {
    ClearedZero();
    hide Cleared;
    assert fd < |t.files| ==> t.flags[fd := 0][fd := 0] == t.flags[fd := 0];
  }

  lemma ClearedZero()
    ensures Cleared(0) == 0
  {
  }

  function Installed(t: Fds, fd: nat, file: nat): Fds
    requires |t.files| == |t.flags|
  {
    if fd < |t.files| && file != 0 && Allocated(t.flags[fd]) then t.(files := t.files[fd := file]) else t
  }

  lemma FlagBits(f: Flags)
    ensures Allocated(f | FD_ALLOCATED) && !Allocated(Cleared(f)) && !Allocated(0)
  {
  }

  /** The descriptor returned is free before and taken after, and no other slot changes. */
  lemma MarkedSlot(t: Fds, fd: nat, flags: Flags, i: nat)
    requires Shape(t) && fd < |t.files| && !InUse(t, fd) && i < |t.files|
    ensures Shape(Marked(t, fd, flags)) && Marked(t, fd, flags).files == t.files
    ensures InUse(Marked(t, fd, flags), i) <==> i == fd || InUse(t, i)
  {
    FlagBits(flags);
    hide Allocated;
    assert t.files[fd] == 0;
  }

  lemma MarkedLow(t: Fds, fd: nat, flags: Flags)
    requires Shape(t) && fd < |t.files| && !InUse(t, fd)
    ensures Shape(Marked(t, fd, flags)) && Marked(t, fd, flags).next == fd + 1
    ensures UsedBetween(t, 0, fd) ==> LowFull(Marked(t, fd, flags))
  {
    hide InUse;
    forall i | 0 <= i <= fd ensures Shape(Marked(t, fd, flags))
      && (InUse(Marked(t, fd, flags), i) <==> i == fd || InUse(t, i)) {
      MarkedSlot(t, fd, flags, i);
    }
  }

  lemma ClosedSlot(t: Fds, fd: nat, i: nat)
    requires Shape(t) && i < |t.files|
    ensures Shape(Closed(t, fd)) && |Closed(t, fd).files| == |t.files|
    ensures InUse(Closed(t, fd), i) <==> InUse(t, i) && i != fd
  {
    if fd < |t.files| {
      FlagBits(t.flags[fd]);
    }
    hide Allocated;
  }

  /** Closing frees exactly one slot and keeps the low slots full exactly when the slot held a file or lies at or above
      the hint. */
  lemma ClosedSlots(t: Fds, fd: nat)
    requires Shape(t)
    ensures Shape(Closed(t, fd)) && |Closed(t, fd).files| == |t.files|
    ensures forall i :: 0 <= i < |t.files| ==> (InUse(Closed(t, fd), i) <==> InUse(t, i) && i != fd)
    ensures LowFull(t) ==> (LowFull(Closed(t, fd)) <==> fd >= t.next || t.files[fd] != 0)
  {
    ClosedSlot(t, fd, 0);
    forall i | 0 <= i < |t.files| ensures InUse(Closed(t, fd), i) <==> InUse(t, i) && i != fd {
      ClosedSlot(t, fd, i);
    }
    ClosedHint(t, fd);
    hide InUse, Closed;
    if fd < t.next {
      assert !InUse(Closed(t, fd), fd);
    }
  }

  lemma ClosedHint(t: Fds, fd: nat)
    requires Shape(t)
    ensures Closed(t, fd).next == if fd < t.next && t.files[fd] != 0 then fd else t.next
  {
  }

  lemma InstalledSlots(t: Fds, fd: nat, file: nat)
    requires Shape(t)
    ensures Shape(Installed(t, fd, file))
      && forall i :: 0 <= i < |t.files| ==> (InUse(Installed(t, fd, file), i) <==> InUse(t, i))
    ensures LowFull(t) ==> LowFull(Installed(t, fd, file))
  {
    hide Allocated;
  }

  /** Growth keeps every entry and flag and adds free slots. */
  lemma GrownSlots(t: Fds, size: nat)
    requires Shape(t) && |t.files| < size <= MAX_FDS
    ensures Shape(Grown(t, size)) && |Grown(t, size).files| == size
    ensures Grown(t, size).files[..|t.files|] == t.files && Grown(t, size).flags[..|t.flags|] == t.flags
    ensures forall i :: 0 <= i < size ==> (InUse(Grown(t, size), i) <==> i < |t.files| && InUse(t, i))
    ensures LowFull(t) ==> LowFull(Grown(t, size))
  {
    FlagBits(0);
    hide Allocated;
  }

  const INIT_SIZE := 16

  /** Two descriptors of a new table are allocated and the first is closed before a file is installed: the hole lies
      below the hint, and the next allocation gets 2 instead of 0. */
  method HoleBelowHint() returns (t: Table, first: int, second: int, third: int)
    ensures first == 0 && second == 1 && third == 2
    ensures t.Valid() && !LowFull(t.State()) && !InUse(t.State(), 0)
  {
    hide Allocated, Marked, Closed, InUse;
    t := new Table();
    ghost var t0 := t.State();
    assert !InUse(t0, 0) && !InUse(t0, 1) && !InUse(t0, 2);
    first := t.AllocFd(0, true);
    ghost var t1 := t.State();
    MarkedSlots(t0, 0, 0);
    second := t.AllocFd(0, true);
    ghost var t2 := t.State();
    MarkedSlots(t1, 1, 0);
    var file := t.CloseFd(0);
    ghost var t3 := t.State();
    ClosedSlots(t2, 0);
    ClosedHint(t2, 0);
    third := t.AllocFd(0, true);
    MarkedSlots(t3, 2, 0);
  }

  lemma MarkedSlots(t: Fds, fd: nat, flags: Flags)
    requires Shape(t) && fd < |t.files| && !InUse(t, fd)
    ensures Shape(Marked(t, fd, flags)) && Marked(t, fd, flags).next == fd + 1 && Marked(t, fd, flags).files == t.files
    ensures forall i :: 0 <= i < |t.files| ==> (InUse(Marked(t, fd, flags), i) <==> i == fd || InUse(t, i))
  {
    hide InUse, Marked;
    MarkedLow(t, fd, flags);
    MarkedSlot(t, fd, flags, fd);
    forall i | 0 <= i < |t.files| ensures InUse(Marked(t, fd, flags), i) <==> i == fd || InUse(t, i) {
      MarkedSlot(t, fd, flags, i);
    }
  }

  datatype Request = Alloc(flags: Flags, memory: bool) | Install(fd: nat, file: nat) | Close(fd: nat)

  class Table {
    var files: seq<nat>
    var flags: seq<Flags>
    var next: nat

    ghost function State(): Fds
      reads this
    {
      Fds(files, flags, next)
    }

    ghost predicate Valid()
      reads this
    {
      Shape(State())
    }

    /** fdtable_alloc: a table of sixteen free slots. */
    constructor ()
      ensures Valid() && |files| == INIT_SIZE && next == 0 && LowFull(State())
      ensures forall i :: 0 <= i < INIT_SIZE ==> files[i] == 0 && !InUse(State(), i)
    {
      files, flags, next := seq(INIT_SIZE, _ => 0), seq(INIT_SIZE, _ => 0), 0;
      FlagBits(0);
    }

    /** __find_next_fd: the first free slot from `start` on, or -1. */
    method FindNextFd(start: nat) returns (fd: int)
      requires Valid() && start <= |files|
      ensures -1 <= fd < |files|
      ensures fd >= 0 ==> start <= fd && !InUse(State(), fd) && UsedBetween(State(), start, fd)
      ensures fd == -1 ==> UsedBetween(State(), start, |files|)
    {
      hide Allocated;
      for i := start to |files|
        invariant UsedBetween(State(), start, i)
      {
        if files[i] == 0 && !Allocated(flags[i]) {
          return i;
        }
      }
      return -1;
    }

    /** fdtable_expand */
    method Expand(size: nat, memory: bool) returns (ret: int)
      requires Valid()
      modifies this`files, this`flags
      ensures Valid()
      ensures ret == 0 <==> memory && |old(files)| < size <= MAX_FDS
      ensures ret == 0 ==> State() == Grown(old(State()), size)
      ensures ret != 0 ==> ret < 0 && State() == old(State())
    {
      hide Allocated;
      if size <= |files| {
        return -EINVAL;
      }
      if size > MAX_FDS || !memory {
        return -ENOMEM;   // arrays of more than 2^31 elements never fit
      }
      GrownSlots(State(), size);
      files := files + seq(size - |files|, _ => 0);
      flags := flags + seq(size - |flags|, _ => 0);
      return 0;
    }

    /** fdtable_allocFd. The descriptor is the first free one from the hint on, else the first free one, else the first
        of a doubled table; it is the lowest free one exactly when the slots below the hint are full or those above it
        are. */
    method AllocFd(newFlags: Flags, memory: bool) returns (fd: int)
      requires Valid()
      modifies this
      ensures Valid()
      ensures fd < 0 <==> UsedBetween(old(State()), 0, |old(files)|) && !(memory && 2 * |old(files)| <= MAX_FDS)
      ensures fd < 0 ==> fd == -EMFILE && State() == old(State())
      ensures fd >= 0 ==>
        var t := old(State());
        && (fd < |t.files| ==> !InUse(t, fd) && State() == Marked(t, fd, newFlags))
        && (fd >= |t.files| ==>
          fd == |t.files| && UsedBetween(t, 0, |t.files|) && State() == Marked(Grown(t, 2 * |t.files|), fd, newFlags))
      ensures 0 <= fd < |old(files)| ==>
        var t := old(State());
        if UsedBetween(t, t.next, |t.files|) then UsedBetween(t, 0, fd) else t.next <= fd && UsedBetween(t, t.next, fd)
      ensures 0 <= fd < |old(files)| ==>
        (UsedBetween(old(State()), 0, fd) <==>
          LowFull(old(State())) || UsedBetween(old(State()), old(next), |old(files)|))
      ensures LowFull(old(State())) && fd >= 0 ==> LowFull(State())
    {
      hide Allocated, InUse, Marked, Grown;
      fd := FindNextFd(next);
      if fd < 0 {
        fd := FindNextFd(0);
      }
      if fd < 0 {
        var ret := Expand(|files| * 2 % 0x1_0000_0000, memory);
        if ret < 0 {
          return -EMFILE;
        }
        GrownSlots(old(State()), |old(files)| * 2 % 0x1_0000_0000);
        fd := FindNextFd(next);
        assert !InUse(State(), |old(files)|);
      }
      ghost var t := State();
      MarkedLow(t, fd, newFlags);
      MarkedIs(t, fd, newFlags);
      files := files[fd := 0];
      flags := flags[fd := newFlags | FD_ALLOCATED];
      next := fd + 1;
    }

    /** fdtable_closeFd; the file to drop a reference from, or 0. */
    method CloseFd(fd: nat) returns (file: nat)
      requires Valid()
      modifies this
      ensures Valid() && State() == Closed(old(State()), fd)
      ensures file == if fd < |old(files)| then old(files)[fd] else 0
    {
      hide Allocated, Closed, Cleared, InUse;
      ClosedSlots(State(), fd);
      ClosedIs(State(), fd);
      file := 0;
      if fd >= |files| {
        return;
      }
      file := files[fd];
      if file != 0 {
        files, flags := files[fd := 0], flags[fd := 0];
        if fd < next {
          next := fd;
        }
      }
      flags := flags[fd := Cleared(flags[fd])];
    }

    /** fdtable_installFd; a file already in the slot is replaced. */
    method InstallFd(fd: nat, file: nat) returns (ret: int)
      requires Valid()
      modifies this
      ensures Valid() && State() == Installed(old(State()), fd, file)
      ensures ret ==
        if file == 0 || fd >= |old(files)| then -EINVAL else if Allocated(old(flags)[fd]) then fd else -EBADF
    {
      hide Allocated;
      InstalledSlots(State(), fd, file);
      if file == 0 || fd >= |files| {
        return -EINVAL;
      }
      if !Allocated(flags[fd]) {
        return -EBADF;
      }
      files := files[fd := file];
      return fd;
    }

    /** Every run that closes only descriptors holding a file gives the answers and the table of the specification,
        where an allocation returns the lowest free descriptor; the slots below the hint stay full. */
    method Serve(requests: seq<Request>) returns (answers: seq<int>)
      requires Valid() && LowFull(State())
      modifies this
      ensures Valid() && LowFull(State())
      ensures Ran(old(State()), requests) == (State(), answers)
    {
      hide LowFull, Shape, Applied;
      answers := [];
      for n := 0 to |requests|
        invariant Valid() && LowFull(State()) && Ran(old(State()), requests[..n]) == (State(), answers)
      {
        var ans := ServeOne(requests[n]);
        RanSnoc(old(State()), requests[..n], requests[n]);
        assert requests[..n + 1] == requests[..n] + [requests[n]];
        answers := answers + [ans];
      }
      assert requests[..|requests|] == requests;
    }

    method ServeOne(r: Request) returns (ans: int)
      requires Valid() && LowFull(State())
      modifies this
      ensures Valid() && LowFull(State())
      ensures Applied(old(State()), r) == (State(), ans)
    {
      hide InUse, Marked, Grown, Closed, Installed, LowFull;
      ghost var t := State();
      match r
      case Alloc(newFlags, memory) =>
        ans := AllocFd(newFlags, memory);
        LowestIs(t, if ans >= 0 then ans else |t.files|);
      case Install(fd, file) =>
        InstalledSlots(t, fd, file);
        ans := InstallFd(fd, file);
      case Close(fd) =>
        ans := 0;
        if fd < |files| && files[fd] != 0 {
          ClosedSlots(t, fd);
          ans := CloseFd(fd);
        }
    }
  }

  /** The lowest free descriptor, or the length of the table when all are in use. */
  ghost function LowestFree(t: Fds): (fd: nat)
    requires Shape(t)
    ensures fd <= |t.files| && UsedBetween(t, 0, fd) && (fd < |t.files| ==> !InUse(t, fd))
  {
    LowestFrom(t, 0)
  }

  ghost function LowestFrom(t: Fds, i: nat): (fd: nat)
    requires Shape(t) && i <= |t.files| && UsedBetween(t, 0, i)
    ensures fd <= |t.files| && UsedBetween(t, 0, fd) && (fd < |t.files| ==> !InUse(t, fd))
    decreases |t.files| - i
  {
    if i == |t.files| || !InUse(t, i) then i else LowestFrom(t, i + 1)
  }

  lemma LowestIs(t: Fds, fd: nat)
    requires Shape(t) && fd <= |t.files| && UsedBetween(t, 0, fd) && (fd < |t.files| ==> !InUse(t, fd))
    ensures LowestFree(t) == fd
  {
    hide InUse, LowestFree;
  }

  /** The table after one request, and its answer: an allocation gets the lowest free descriptor. */
  ghost function Applied(t: Fds, r: Request): (Fds, int) {
    if !Shape(t) then (t, 0) else
    match r
    case Alloc(flags, memory) =>
      var fd := LowestFree(t);
      if fd < |t.files| then (Marked(t, fd, flags), fd)
      else if memory && 2 * |t.files| <= MAX_FDS then (Marked(Grown(t, 2 * |t.files|), fd, flags), fd)
      else (t, -EMFILE)
    case Install(fd, file) =>
      (Installed(t, fd, file),
       if file == 0 || fd >= |t.files| then -EINVAL else if Allocated(t.flags[fd]) then fd else -EBADF)
    case Close(fd) =>
      if fd < |t.files| && t.files[fd] != 0 then (Closed(t, fd), t.files[fd]) else (t, 0)
  }

  ghost function Ran(t: Fds, requests: seq<Request>): (Fds, seq<int>) {
    if requests == [] then (t, []) else
    var n := |requests| - 1;
    var (mid, answers) := Ran(t, requests[..n]);
    var (t', ans) := Applied(mid, requests[n]);
    (t', answers + [ans])
  }

  lemma RanSnoc(t: Fds, requests: seq<Request>, r: Request)
    ensures var (mid, answers) := Ran(t, requests);
            var (t', ans) := Applied(mid, r);
            Ran(t, requests + [r]) == (t', answers + [ans])
  {
    hide Applied;
    assert (requests + [r])[..|requests|] == requests;
  }

  lemma MarkedIs(t: Fds, fd: nat, flags: Flags)
    requires fd < |t.files| == |t.flags|
    ensures Marked(t, fd, flags) == Fds(t.files[fd := 0], t.flags[fd := flags | FD_ALLOCATED], fd + 1)
  {
  }
}
