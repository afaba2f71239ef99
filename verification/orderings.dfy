/** Rust's `std::cmp::Ordering` and the orders the model compares values by. */
module Orderings {
  import opened BaseTypes

  datatype Ordering = Less | Equal | Greater {
    /** `Ordering::reverse`. */
    function Reverse(): Ordering {
      match this
      case Less => Greater
      case Equal => Equal
      case Greater => Less
    }
  }

  /** `Ord::cmp` on integers (as derived for a struct holding one integer). */
  function IntCmp(a: int, b: int): (r: Ordering)
    ensures r == Less <==> a < b
    ensures r == Equal <==> a == b
    ensures r == Greater <==> a > b
  {
    if a < b then Less else if a == b then Equal else Greater
  }

  /**
   * `Ord::cmp` on `str`/`String`: lexicographic comparison of the UTF-8 bytes, where a
   * proper prefix comes first.
   */
  function LexCmp(a: Bytes, b: Bytes): Ordering
    decreases |a|
  {
    if |a| == 0 then (if |b| == 0 then Equal else Less)
    else if |b| == 0 then Greater
    else if a[0] < b[0] then Less
    else if a[0] > b[0] then Greater
    else LexCmp(a[1..], b[1..])
  }

  /**
   * Reference definition of "a sorts before b": either a is a proper prefix of b, or at the
   * first position where they differ a has the smaller byte.
   */
  ghost predicate LexLess(a: Bytes, b: Bytes) {
    exists k | 0 <= k <= |a| && k <= |b| ::
      a[..k] == b[..k] && (k == |a| < |b| || (k < |a| && k < |b| && a[k] < b[k]))
  }

  /** `cmp` answers Equal exactly on equal strings. */
  lemma {:induction false} LexCmpEqualIff(a: Bytes, b: Bytes)
    ensures LexCmp(a, b) == Equal <==> a == b
    decreases |a|
  {
    if |a| > 0 && |b| > 0 && a[0] == b[0] {
      LexCmpEqualIff(a[1..], b[1..]);
      if a[1..] == b[1..] {
        assert a == [a[0]] + a[1..] && b == [b[0]] + b[1..];
      }
    }
  }

  /** Swapping the operands reverses the answer (so the order is antisymmetric). */
  lemma {:induction false} LexCmpAntisymmetric(a: Bytes, b: Bytes)
    ensures LexCmp(b, a) == LexCmp(a, b).Reverse()
    decreases |a|
  {
    if |a| > 0 && |b| > 0 && a[0] == b[0] {
      LexCmpAntisymmetric(a[1..], b[1..]);
    }
  }

  /** `Less` is transitive. */
  lemma {:induction false} LexCmpTransitive(a: Bytes, b: Bytes, c: Bytes)
    requires LexCmp(a, b) == Less && LexCmp(b, c) == Less
    ensures LexCmp(a, c) == Less
    decreases |a|
  {
    if |a| > 0 && |b| > 0 && |c| > 0 && a[0] == b[0] && b[0] == c[0] {
      LexCmpTransitive(a[1..], b[1..], c[1..]);
    }
  }

  /** Strings with equal first bytes: `a` sorts before `b` iff their tails do. */
  lemma LexLessTail(a: Bytes, b: Bytes)
    requires |a| > 0 && |b| > 0 && a[0] == b[0]
    ensures LexLess(a, b) <==> LexLess(a[1..], b[1..])
  {
    if LexLess(a, b) {
      var k :| 0 <= k <= |a| && k <= |b| && a[..k] == b[..k]
               && (k == |a| < |b| || (k < |a| && k < |b| && a[k] < b[k]));
      assert k > 0;
      assert a[1..][..k-1] == a[..k][1..] == b[..k][1..] == b[1..][..k-1];
    }
    if LexLess(a[1..], b[1..]) {
      var k :| 0 <= k <= |a[1..]| && k <= |b[1..]| && a[1..][..k] == b[1..][..k]
               && (k == |a[1..]| < |b[1..]| || (k < |a[1..]| && k < |b[1..]| && a[1..][k] < b[1..][k]));
      assert a[..k+1] == [a[0]] + a[1..][..k];
      assert b[..k+1] == [b[0]] + b[1..][..k];
      assert a[..k+1] == b[..k+1];
    }
  }

  /** A string that sorts first cannot start with a larger byte. */
  lemma LexLessFirstByte(a: Bytes, b: Bytes)
    requires |a| > 0 && |b| > 0 && LexLess(a, b)
    ensures a[0] <= b[0]
  {
    var k :| 0 <= k <= |a| && k <= |b| && a[..k] == b[..k]
             && (k == |a| < |b| || (k < |a| && k < |b| && a[k] < b[k]));
    if k > 0 {
      assert a[..k][0] == b[..k][0];
    }
  }

  /** `cmp` answers Less exactly when the reference definition says `a` sorts first. */
  lemma {:induction false} LexCmpLessIff(a: Bytes, b: Bytes)
    ensures LexCmp(a, b) == Less <==> LexLess(a, b)
    decreases |a|
  {
    if |a| == 0 {
      if |b| > 0 {
        assert a[..0] == b[..0];
      }
    } else if |b| == 0 {
    } else if a[0] < b[0] {
      assert a[..0] == b[..0];
    } else if a[0] > b[0] {
      if LexLess(a, b) {
        LexLessFirstByte(a, b);
      }
    } else {
      LexCmpLessIff(a[1..], b[1..]);
      LexLessTail(a, b);
    }
  }
}
