/** The pid allocator's two operations, as they run while the lock is held. */
module Pid {
  import opened Bitmap
  import opened PidSteps

  const EAGAIN := 11

  class Manager {
    var bits: seq<Byte>
    var next: nat

    ghost predicate Valid()
      reads this
    {
      |bits| == PID_MAX / 8 && next < PID_MAX
    }

    constructor ()
      ensures Valid() && next == 1 && bits == NoBits(PID_MAX / 8)
    {
      bits, next := NoBits(PID_MAX / 8), 1;
    }

    /** pid_alloc: the first free pid from the cursor on, round the ring; it fails exactly when all are live. */
    method Alloc() returns (pid: int, ghost turn: nat)
      requires Valid()
      modifies this
      ensures Valid()
      ensures pid > 0 || pid == -EAGAIN
      ensures pid > 0 ==>
        && turn < PID_MAX && pid == Cursor(old(next), turn) && !Bit(old(bits), pid)
          && AllSeen(old(bits), old(next), turn)
        && bits == SetBit(old(bits), pid) && next == (pid + 1) % PID_MAX
      ensures pid == -EAGAIN ==> bits == old(bits) && next == old(next)
      ensures pid == -EAGAIN <==> forall p :: 0 < p < PID_MAX ==> Bit(old(bits), p)
    {
      hide Bit, SetBit;
      var i := 0;
      while i < PID_MAX
        invariant i <= PID_MAX && bits == old(bits) && next == old(next) && AllSeen(bits, next, i)
      {
        var current := Cursor(next, i);
        if current != 0 && !Bit(bits, current) {
          bits := SetBit(bits, current);
          next := (current + 1) % PID_MAX;
          return current, i;
        }
        SeenMore(bits, next, i);
        i := i + 1;
      }
      forall p | 0 < p < PID_MAX ensures Bit(bits, p) {
        CursorHits(next, p);
      }
      return -EAGAIN, PID_MAX;
    }

    /** pid_free: exactly one pid becomes free. */
    method Free(pid: nat)
      requires Valid() && 0 < pid < PID_MAX
      modifies this`bits
      ensures Valid() && bits == ClearBit(old(bits), pid)
      ensures forall p :: 0 <= p < PID_MAX ==> (Bit(bits, p) <==> p != pid && Bit(old(bits), p))
    {
      hide Bit, ClearBit;
      forall p | 0 <= p < PID_MAX ensures Bit(ClearBit(bits, pid), p) <==> p != pid && Bit(bits, p) {
        SetBitAt(bits, pid, p);
      }
      bits := ClearBit(bits, pid);
    }
  }
}
