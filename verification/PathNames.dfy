/** Path strings: cutting them at slashes, and joining names with slashes. */
module PathNames {
  /** Where the first slash stands, or the length without one. */
  function FirstSlash(s: string): (k: nat)
    ensures k <= |s|
    ensures forall i :: 0 <= i < k ==> s[i] != '/'
    ensures k < |s| ==> s[k] == '/'
  {
    if s == "" || s[0] == '/' then 0 else 1 + FirstSlash(s[1..])
  }

  /** What follows the first component and its slash. */
  function Rest(s: string): (r: string)
    ensures s != "" ==> |r| < |s|
  {
    var k := FirstSlash(s);
    if k < |s| then s[k + 1..] else ""
  }

  /** The nonempty components of a relative path, in order. */
  function Components(s: string): seq<string>
    decreases |s|
  {
    if s == "" then [] else
    var k := FirstSlash(s);
    (if k == 0 then [] else [s[..k]]) + Components(Rest(s))
  }

  /** A name a directory entry can have: not empty, no slash, no zero byte, not "." or "..". */
  predicate PlainName(n: string) {
    n != "" && '/' !in n && '\0' !in n && n != "." && n != ".."
  }

  /** Every name with a slash before it. */
  function Slashed(names: seq<string>): string {
    if names == [] then "" else "/" + names[0] + Slashed(names[1..])
  }

  /** The absolute path of a node reached from the root by `names`. */
  function Absolute(names: seq<string>): string { if names == [] then "/" else Slashed(names) }

  lemma SlashAt(a: string, b: string)
    requires '/' !in a && (b == "" || b[0] == '/')
    ensures FirstSlash(a + b) == |a|
  {
    assert forall i :: 0 <= i < |a| ==> (a + b)[i] == a[i];
    assert b != "" ==> (a + b)[|a|] == b[0];
  }

  /** Cutting a joined path gives back the names. */
  lemma {:induction false} ComponentsOfSlashed(names: seq<string>)
    requires names != [] && forall n :: n in names ==> PlainName(n)
    ensures Slashed(names) != "" && Slashed(names)[0] == '/' && Components(Slashed(names)[1..]) == names
    decreases |names|
  {
    var head, tail := names[0], Slashed(names[1..]);
    assert Slashed(names)[1..] == head + tail;
    assert PlainName(head) && names == [head] + names[1..];
    if names[1..] != [] {
      ComponentsOfSlashed(names[1..]);
    }
    hide Components;
    ComponentsCons(head, tail);
  }

  lemma ComponentsCons(head: string, tail: string)
    requires head != "" && '/' !in head && (tail == "" || tail[0] == '/')
    ensures Components(head + tail) == [head] + (if tail == "" then [] else Components(tail[1..]))
  {
    var s := head + tail;
    SlashAt(head, tail);
    RestOf(head, tail);
    hide FirstSlash, Rest;
    assert s[..|head|] == head;
  }

  lemma RestOf(head: string, tail: string)
    requires FirstSlash(head + tail) == |head|
    ensures Rest(head + tail) == if tail == "" then "" else tail[1..]
  {
    hide FirstSlash;
    assert tail != "" ==> (head + tail)[|head| + 1..] == tail[1..];
  }

  lemma {:induction false} SlashedSnoc(names: seq<string>, n: string)
    ensures Slashed(names + [n]) == Slashed(names) + "/" + n
  {
    if names != [] {
      SlashedSnoc(names[1..], n);
      assert (names + [n])[1..] == names[1..] + [n];
    } else {
      assert (names + [n])[1..] == [];
    }
  }
}
