/** Small shared vocabulary: an optional value and facts about duplicate-free sequences. */
module Common {

  /** A value that may be absent (a failed lookup, a NULL text pointer). */
  datatype Option<T> = None | Some(value: T)

  /** No element occurs at two different positions of `s`. */
  ghost predicate Distinct<T>(s: seq<T>)
  {
    forall i, j :: 0 <= i < |s| && 0 <= j < |s| && i != j ==> s[i] != s[j]
  }

  /** The set of elements of `s`. */
  ghost function Elements<T>(s: seq<T>): set<T>
  {
    set x | x in s
  }

  /** A duplicate-free sequence has exactly as many elements as its set. */
  lemma {:induction false} DistinctCardinality<T>(s: seq<T>)
    requires Distinct(s)
    ensures |Elements(s)| == |s|
  {
    if s != [] {
      var tail := s[1..];
      assert Distinct(tail) by {
        forall i, j | 0 <= i < |tail| && 0 <= j < |tail| && i != j
          ensures tail[i] != tail[j]
        {
          assert tail[i] == s[i + 1] && tail[j] == s[j + 1];
        }
      }
      DistinctCardinality(tail);
      assert s == [s[0]] + tail;
      assert Elements(s) == {s[0]} + Elements(tail);
      assert s[0] !in Elements(tail);
    }
  }

  /** Putting a new element in front keeps a sequence duplicate-free and adds it to the set. */
  lemma DistinctCons<T>(x: T, s: seq<T>)
    requires Distinct(s) && x !in s
    ensures Distinct([x] + s)
    ensures Elements([x] + s) == {x} + Elements(s)
  {
    var t := [x] + s;
    forall i, j | 0 <= i < |t| && 0 <= j < |t| && i != j ensures t[i] != t[j] {
      if i > 0 && j > 0 {
        assert t[i] == s[i - 1] && t[j] == s[j - 1];
      }
    }
  }

  /** Dropping the front of a duplicate-free sequence removes exactly that element from its set. */
  lemma DistinctTail<T>(s: seq<T>)
    requires Distinct(s) && s != []
    ensures Distinct(s[1..])
    ensures Elements(s[1..]) == Elements(s) - {s[0]}
  {
    var t := s[1..];
    forall i, j | 0 <= i < |t| && 0 <= j < |t| && i != j ensures t[i] != t[j] {
      assert t[i] == s[i + 1] && t[j] == s[j + 1];
    }
    assert s == [s[0]] + t;
  }

  /** Overwriting one entry with a fresh value swaps that value into the set. */
  lemma DistinctUpdate<T>(s: seq<T>, i: int, x: T)
    requires Distinct(s) && 0 <= i < |s| && x !in s
    ensures Distinct(s[i := x])
    ensures Elements(s[i := x]) == Elements(s) - {s[i]} + {x}
  {
    var t := s[i := x];
    assert t[i] == x;
    forall y ensures y in Elements(t) <==> y in Elements(s) - {s[i]} + {x} {
      if y in Elements(s) - {s[i]} {
        var k :| 0 <= k < |s| && s[k] == y;
        assert t[k] == y;
      }
      if y in Elements(t) {
        var k :| 0 <= k < |t| && t[k] == y;
        if k != i {
          assert y == s[k] && s[k] != s[i];
        }
      }
    }
  }

  /** Sequences with the same multiset have the same set of elements. */
  lemma SameMultisetSameElements<T>(a: seq<T>, b: seq<T>)
    requires multiset(a) == multiset(b)
    ensures Elements(a) == Elements(b)
  {
    forall x ensures x in a <==> x in b {
      assert x in a <==> x in multiset(a);
      assert x in b <==> x in multiset(b);
    }
  }
}
