/** Shared by several parts: lists without repetition, and addresses not in use. */
module Common {
  ghost predicate NoDup<T>(s: seq<T>) { forall i, j :: 0 <= i < j < |s| ==> s[i] != s[j] }

  /** kmalloc: an address not in use. */
  method FreshAddress(used: set<nat>) returns (n: nat)
    ensures n != 0 && n !in used
  {
    var left := used;
    n := 1;
    while left != {}
      invariant n >= 1 && left <= used && forall x :: x in used && x !in left ==> x < n
      decreases |left|
    {
      var x :| x in left;
      if x >= n {
        n := x + 1;
      }
      left := left - {x};
    }
  }
}
