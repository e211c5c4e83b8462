/** SHA-1 object ids and their lexicographic order (Rust's derived `Ord` on byte arrays). */
module Oid {
  import opened Bytes

  const SHA1_SIZE: nat := 20

  type Sha1 = s: Bytes | |s| == SHA1_SIZE witness seq(20, _ => 0)

  datatype Ordering = Less | Equal | Greater

  /** Lexicographic comparison of byte strings; a proper prefix sorts first. */
  function Compare(a: Bytes, b: Bytes): (r: Ordering)
    ensures r == Equal <==> a == b
    decreases |a|
  {
    if |a| == 0 && |b| == 0 then Equal
    else if |a| == 0 then Less
    else if |b| == 0 then Greater
    else if a[0] < b[0] then Less
    else if a[0] > b[0] then Greater
    else
      var r := Compare(a[1..], b[1..]);
      assert a == [a[0]] + a[1..] && b == [b[0]] + b[1..];
      r
  }

  /** `a` sorts strictly before `b`: the first differing byte is smaller in `a`,
      or `a` is a proper prefix of `b`. */
  ghost predicate LexLess(a: Bytes, b: Bytes) {
    exists k :: 0 <= k <= |a| && k < |b| && a[..k] == b[..k] && (k == |a| || a[k] < b[k])
  }

  /** `Compare` says `Less` exactly when the bytes are lexicographically smaller. */
  lemma {:induction false} CompareLessIsLexLess(a: Bytes, b: Bytes)
    ensures Compare(a, b) == Less <==> LexLess(a, b)
    decreases |a|
  {
    if |b| == 0 {
    } else if |a| == 0 {
      assert a[..0] == b[..0];
    } else if a[0] < b[0] {
      assert a[..0] == b[..0];
    } else if a[0] > b[0] {
      LexLessHeadGreater(a, b);
    } else {
      CompareLessIsLexLess(a[1..], b[1..]);
      LexLessTail(a, b);
    }
  }

  lemma LexLessHeadGreater(a: Bytes, b: Bytes)
    requires |a| > 0 && |b| > 0 && a[0] > b[0]
    ensures !LexLess(a, b)
  {
    if LexLess(a, b) {
      var k :| 0 <= k <= |a| && k < |b| && a[..k] == b[..k] && (k == |a| || a[k] < b[k]);
    }
  }

  /** Equal leading bytes leave the order to the tails. */
  lemma LexLessTail(a: Bytes, b: Bytes)
    requires |a| > 0 && |b| > 0 && a[0] == b[0]
    ensures LexLess(a, b) <==> LexLess(a[1..], b[1..])
  {
    if LexLess(a, b) {
      var k :| 0 <= k <= |a| && k < |b| && a[..k] == b[..k] && (k == |a| || a[k] < b[k]);
      LexLessDropHead(a, b, k);
    }
    if LexLess(a[1..], b[1..]) {
      var k :| 0 <= k <= |a| - 1 && k < |b| - 1 && a[1..][..k] == b[1..][..k]
               && (k == |a| - 1 || a[1..][k] < b[1..][k]);
      LexLessAddHead(a, b, k);
    }
  }

  lemma LexLessDropHead(a: Bytes, b: Bytes, k: nat)
    requires |a| > 0 && |b| > 0 && a[0] == b[0]
    requires k <= |a| && k < |b| && a[..k] == b[..k] && (k == |a| || a[k] < b[k])
    ensures LexLess(a[1..], b[1..])
  {
    assert k > 0;
    var a', b' := a[1..], b[1..];
    assert a'[..k - 1] == a[..k][1..];
    assert b'[..k - 1] == b[..k][1..];
    assert k - 1 == |a'| || a'[k - 1] < b'[k - 1];
  }

  lemma LexLessAddHead(a: Bytes, b: Bytes, k: nat)
    requires |a| > 0 && |b| > 0 && a[0] == b[0]
    requires k <= |a| - 1 && k < |b| - 1 && a[1..][..k] == b[1..][..k]
    requires k == |a| - 1 || a[1..][k] < b[1..][k]
    ensures LexLess(a, b)
  {
    assert a[..k + 1] == [a[0]] + a[1..][..k];
    assert b[..k + 1] == [b[0]] + b[1..][..k];
    assert k + 1 == |a| || a[k + 1] < b[k + 1];
  }

  /** Swapping the operands flips `Less` and `Greater`. */
  lemma {:induction false} CompareAntisymmetric(a: Bytes, b: Bytes)
    ensures Compare(a, b) == Less <==> Compare(b, a) == Greater
    decreases |a|
  {
    if |a| > 0 && |b| > 0 && a[0] == b[0] {
      CompareAntisymmetric(a[1..], b[1..]);
    }
  }

  /** `Less` is transitive, so sorted id tables are totally ordered. */
  lemma {:induction false} CompareTransitive(a: Bytes, b: Bytes, c: Bytes)
    requires Compare(a, b) == Less && Compare(b, c) == Less
    ensures Compare(a, c) == Less
    decreases |a|
  {
    if |a| > 0 && |b| > 0 && |c| > 0 && a[0] == b[0] && b[0] == c[0] {
      CompareTransitive(a[1..], b[1..], c[1..]);
    }
  }

  /** `chunks_exact(SHA1_SIZE)` over a byte string, mapped to ids; the remainder is dropped. */
  function SplitIds(s: Bytes): (ids: seq<Sha1>)
    ensures |ids| == |s| / SHA1_SIZE
    ensures forall i :: 0 <= i < |ids| ==> ids[i] == s[i * SHA1_SIZE .. i * SHA1_SIZE + SHA1_SIZE]
    decreases |s|
  {
    if |s| < SHA1_SIZE then [] else [s[..SHA1_SIZE]] + SplitIds(s[SHA1_SIZE..])
  }

  /** A whole number of ids split and glued back together is the original byte string. */
  lemma {:induction false} FlattenSplitIds(s: Bytes)
    requires |s| % SHA1_SIZE == 0
    ensures Flatten(SplitIds(s)) == s
    decreases |s|
  {
    if |s| >= SHA1_SIZE {
      FlattenSplitIds(s[SHA1_SIZE..]);
      assert s == s[..SHA1_SIZE] + s[SHA1_SIZE..];
    }
  }
}
