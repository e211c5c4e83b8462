/** Byte strings and the slice helpers both parsers are built from. */
module Bytes {
  import opened Results

  type Bytes = seq<bv8>

  /** Concatenation of a sequence of byte strings. */
  function Flatten(chunks: seq<Bytes>): Bytes {
    if |chunks| == 0 then [] else chunks[0] + Flatten(chunks[1..])
  }

  lemma FlattenCons(head: Bytes, tail: seq<Bytes>)
    ensures Flatten([head] + tail) == head + Flatten(tail)
  {
    assert ([head] + tail)[1..] == tail;
  }

  /** A slice of a slice is a slice of the original. */
  lemma SliceOfSlice(s: Bytes, a: nat, b: nat, c: nat, d: nat)
    requires a <= b <= |s| && c <= d <= b - a
    ensures s[a..b][c..d] == s[a + c .. a + d]
  {
    assert forall k :: 0 <= k < d - c ==> s[a..b][c..d][k] == s[a + c + k];
  }

  /** Adjacent slices glue into one. */
  lemma SliceConcat(s: Bytes, a: nat, m: nat, b: nat)
    requires a <= m <= b <= |s|
    ensures s[a..b] == s[a..m] + s[m..b]
  {
  }

  /** The first index whose byte satisfies `p`, if any. */
  function FindFirst(s: Bytes, p: bv8 -> bool): (r: Option<nat>)
    ensures r.Some? ==> r.value < |s| && p(s[r.value])
    ensures r.Some? ==> forall k :: 0 <= k < r.value ==> !p(s[k])
    ensures r.None? <==> forall k :: 0 <= k < |s| ==> !p(s[k])
  {
    if |s| == 0 then None
    else if p(s[0]) then Some(0)
    else match FindFirst(s[1..], p)
      case Some(i) => Some(i + 1)
      case None => None
  }

  /** A prefix without any match shifts the first match of the rest by its length. */
  lemma FindFirstAfterPrefix(a: Bytes, b: Bytes, p: bv8 -> bool)
    requires forall k :: 0 <= k < |a| ==> !p(a[k])
    ensures FindFirst(a + b, p) == (match FindFirst(b, p)
                                     case Some(i) => Some(|a| + i)
                                     case None => None)
  {
    var ab := a + b;
    match FindFirst(b, p)
    case Some(i) =>
      assert ab[|a| + i] == b[i];
      assert forall k :: 0 <= k < |a| + i ==> !p(ab[k]) by {
        forall k | 0 <= k < |a| + i ensures !p(ab[k]) {
          if k >= |a| { assert ab[k] == b[k - |a|]; }
        }
      }
    case None =>
      assert forall k :: 0 <= k < |ab| ==> !p(ab[k]) by {
        forall k | 0 <= k < |ab| ensures !p(ab[k]) {
          if k >= |a| { assert ab[k] == b[k - |a|]; }
        }
      }
  }
}
