/**
 * The two cyclic rotations of the group ordering (`std::rotate` with the middle
 * iterator one past the front, or one before the back), their repetition and
 * the round trips between them.
 */
module Rotation {
  import opened Common

  /** `std::rotate(first, first + 1, last)`: the front element moves to the back. */
  function RotatedLeft<T>(s: seq<T>): (r: seq<T>)
    ensures |r| == |s|
  {
    if s == [] then [] else s[1..] + [s[0]]
  }

  /** `std::rotate(first, last - 1, last)`: the back element moves to the front. */
  function RotatedRight<T>(s: seq<T>): (r: seq<T>)
    ensures |r| == |s|
  {
    if s == [] then [] else [s[|s| - 1]] + s[..|s| - 1]
  }

  /** Position by position, a rotation up moves every element one place towards the front, the front one to the back. */
  lemma RotatedLeftAt<T>(s: seq<T>)
    ensures forall i :: 0 <= i < |s| - 1 ==> RotatedLeft(s)[i] == s[i + 1]
    ensures s != [] ==> RotatedLeft(s)[|s| - 1] == s[0]
    ensures multiset(RotatedLeft(s)) == multiset(s)
  {
    if s != [] {
      assert s == [s[0]] + s[1..];
    }
  }

  /** Position by position, a rotation down moves every element one place towards the back, the back one to the front. */
  lemma RotatedRightAt<T>(s: seq<T>)
    ensures s != [] ==> RotatedRight(s)[0] == s[|s| - 1]
    ensures forall i :: 1 <= i < |s| ==> RotatedRight(s)[i] == s[i - 1]
    ensures multiset(RotatedRight(s)) == multiset(s)
  {
    if s != [] {
      assert s == s[..|s| - 1] + [s[|s| - 1]];
    }
  }

  /** A rotation up undone by a rotation down. */
  lemma RightUndoesLeft<T>(s: seq<T>)
    ensures RotatedRight(RotatedLeft(s)) == s
  {
  }

  /** A rotation down undone by a rotation up. */
  lemma LeftUndoesRight<T>(s: seq<T>)
    ensures RotatedLeft(RotatedRight(s)) == s
  {
  }

  /** A rotation up never creates or merges duplicates. */
  lemma RotatedLeftKeepsDistinct<T>(s: seq<T>)
    ensures Distinct(RotatedLeft(s)) <==> Distinct(s)
  {
    if s != [] {
      var n, l := |s|, RotatedLeft(s);
      RotatedLeftAt(s);
      if Distinct(s) {
        forall i, j | 0 <= i < n && 0 <= j < n && i != j ensures l[i] != l[j] {
          var i', j' := if i < n - 1 then i + 1 else 0, if j < n - 1 then j + 1 else 0;
          assert l[i] == s[i'] && l[j] == s[j'];
        }
      }
      if Distinct(l) {
        forall i, j | 0 <= i < n && 0 <= j < n && i != j ensures s[i] != s[j] {
          var i', j' := if i == 0 then n - 1 else i - 1, if j == 0 then n - 1 else j - 1;
          assert s[i] == l[i'] && s[j] == l[j'];
        }
      }
    }
  }

  /** A rotation down never creates or merges duplicates. */
  lemma RotatedRightKeepsDistinct<T>(s: seq<T>)
    ensures Distinct(RotatedRight(s)) <==> Distinct(s)
  {
    LeftUndoesRight(s);
    RotatedLeftKeepsDistinct(RotatedRight(s));
  }

  /** `k` successive rotations up (the loop `for (; dir > 0; --dir)`). */
  function RepeatLeft<T>(s: seq<T>, k: nat): (r: seq<T>)
    ensures |r| == |s|
  {
    if k == 0 then s else RotatedLeft(RepeatLeft(s, k - 1))
  }

  /** `k` successive rotations down (the loop `for (; dir < 0; ++dir)`). */
  function RepeatRight<T>(s: seq<T>, k: nat): (r: seq<T>)
    ensures |r| == |s|
  {
    if k == 0 then s else RotatedRight(RepeatRight(s, k - 1))
  }

  /** The ordering after `dir` rotations: up for positive `dir`, down for negative. */
  function Rotated<T>(s: seq<T>, dir: int): (r: seq<T>)
    ensures |r| == |s|
  {
    if dir >= 0 then RepeatLeft(s, dir) else RepeatRight(s, -dir)
  }

  /** Rotating up any number of times is a permutation and keeps duplicate-freedom. */
  lemma {:induction false} RepeatLeftKeepsNames<T>(s: seq<T>, k: nat)
    ensures multiset(RepeatLeft(s, k)) == multiset(s)
    ensures Distinct(RepeatLeft(s, k)) <==> Distinct(s)
  {
    if k > 0 {
      var p := RepeatLeft(s, k - 1);
      RepeatLeftKeepsNames(s, k - 1);
      RotatedLeftAt(p);
      RotatedLeftKeepsDistinct(p);
    }
  }

  /** Rotating down any number of times is a permutation and keeps duplicate-freedom. */
  lemma {:induction false} RepeatRightKeepsNames<T>(s: seq<T>, k: nat)
    ensures multiset(RepeatRight(s, k)) == multiset(s)
    ensures Distinct(RepeatRight(s, k)) <==> Distinct(s)
  {
    if k > 0 {
      var p := RepeatRight(s, k - 1);
      RepeatRightKeepsNames(s, k - 1);
      RotatedRightAt(p);
      RotatedRightKeepsDistinct(p);
    }
  }

  /**
   * Any number of rotations in either direction is a permutation, and keeps a
   * duplicate-free ordering duplicate-free.
   */
  lemma RotatedKeepsNames<T>(s: seq<T>, dir: int)
    ensures multiset(Rotated(s, dir)) == multiset(s)
    ensures Distinct(Rotated(s, dir)) <==> Distinct(s)
  {
    if dir >= 0 {
      RepeatLeftKeepsNames(s, dir);
    } else {
      RepeatRightKeepsNames(s, -dir);
    }
  }

  /** After `k <= |s|` rotations up, the first `k` elements have moved to the back in order. */
  lemma {:induction false} RepeatLeftSplits<T>(s: seq<T>, k: nat)
    requires k <= |s|
    ensures RepeatLeft(s, k) == s[k..] + s[..k]
  {
    if k > 0 {
      RepeatLeftSplits(s, k - 1);
      var p := s[k - 1..] + s[..k - 1];
      assert p[1..] == s[k..] + s[..k - 1];
      assert s[..k] == s[..k - 1] + [s[k - 1]];
    }
  }

  /** After `k <= |s|` rotations down, the last `k` elements have moved to the front in order. */
  lemma {:induction false} RepeatRightSplits<T>(s: seq<T>, k: nat)
    requires k <= |s|
    ensures RepeatRight(s, k) == s[|s| - k..] + s[..|s| - k]
  {
    if k > 0 {
      RepeatRightSplits(s, k - 1);
      var n := |s|;
      var p := s[n - (k - 1)..] + s[..n - (k - 1)];
      assert p[|p| - 1] == s[n - k];
      assert p[..|p| - 1] == s[n - (k - 1)..] + s[..n - k];
      assert s[n - k..] == [s[n - k]] + s[n - (k - 1)..];
    }
  }

  /** Rotating up `a + b` times is rotating up `a` times, then `b` times. */
  lemma {:induction false} RepeatLeftAdds<T>(s: seq<T>, a: nat, b: nat)
    ensures RepeatLeft(s, a + b) == RepeatLeft(RepeatLeft(s, a), b)
  {
    if b > 0 {
      RepeatLeftAdds(s, a, b - 1);
      assert RepeatLeft(s, a + b) == RotatedLeft(RepeatLeft(s, a + b - 1));
    }
  }

  /** Rotating down `a + b` times is rotating down `a` times, then `b` times. */
  lemma {:induction false} RepeatRightAdds<T>(s: seq<T>, a: nat, b: nat)
    ensures RepeatRight(s, a + b) == RepeatRight(RepeatRight(s, a), b)
  {
    if b > 0 {
      RepeatRightAdds(s, a, b - 1);
      assert RepeatRight(s, a + b) == RotatedRight(RepeatRight(s, a + b - 1));
    }
  }

  /** Rotating an `n`-element ordering `m * n` times in one direction restores it. */
  lemma {:induction false} FullCyclesRestore<T>(s: seq<T>, m: nat)
    ensures RepeatLeft(s, m * |s|) == s
    ensures RepeatRight(s, m * |s|) == s
  {
    if m > 0 {
      var n := |s|;
      assert m * n == (m - 1) * n + n;
      FullCyclesRestore(s, m - 1);
      RepeatLeftAdds(s, (m - 1) * n, n);
      RepeatRightAdds(s, (m - 1) * n, n);
      RepeatLeftSplits(s, n);
      RepeatRightSplits(s, n);
    }
  }

  /** A rotation count that is a multiple of the length, in either direction, changes nothing. */
  lemma RotatedByMultiple<T>(s: seq<T>, dir: int)
    requires |s| == 0 || dir % |s| == 0
    ensures Rotated(s, dir) == s
  {
    if |s| == 0 {
      assert Rotated(s, dir) == [];
    } else {
      var n := |s|;
      var m := dir / n;
      assert dir == m * n;
      if dir >= 0 {
        assert m >= 0;
        FullCyclesRestore(s, m);
      } else {
        assert -dir == (-m) * n;
        FullCyclesRestore(s, -m);
      }
    }
  }
}
