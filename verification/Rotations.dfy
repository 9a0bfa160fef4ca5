/** Cyclic shifts of a list, and the `is_rotated` test for them. */
module Rotations {

  function Rotate<T>(s: seq<T>, k: nat): seq<T>
    requires k <= |s|
  {
    s[k..] + s[..k]
  }

  ghost predicate IsRotation<T>(s: seq<T>, t: seq<T>) {
    exists k :: 0 <= k < |s| && Rotate(s, k) == t
  }

  datatype RotatedResult = Value(rotated: bool) | IndexError

  /** Two empty lists have no head item to look for. */
  method IsRotated<T(==)>(seq1: seq<T>, seq2: seq<T>) returns (r: RotatedResult)
    ensures r.IndexError? <==> seq1 == seq2 == []
    ensures r.Value? ==> (r.rotated <==> IsRotation(seq1, seq2))
  {
    if |seq1| != |seq2| {
      return Value(false);
    }
    if |seq2| == 0 {
      return IndexError;
    }
    var startIndexes: seq<nat> := [];
    var headItem := seq2[0];
    for index1 := 0 to |seq1|
      invariant forall i :: i in startIndexes <==> 0 <= i < index1 && seq1[i] == headItem
      invariant forall m :: 0 <= m < |startIndexes| ==> startIndexes[m] < |seq1|
    {
      if seq1[index1] == headItem {
        startIndexes := startIndexes + [index1];
      }
    }
    var doubleSeq1 := seq1 + seq1;
    for n := 0 to |startIndexes|
      invariant forall m :: 0 <= m < n ==> Rotate(seq1, startIndexes[m]) != seq2
    {
      var index1 := startIndexes[n];
      assert doubleSeq1[index1..index1 + |seq1|] == Rotate(seq1, index1);
      if doubleSeq1[index1..index1 + |seq1|] == seq2 {
        return Value(true);
      }
    }
    forall k | 0 <= k < |seq1| ensures Rotate(seq1, k) != seq2 {
      assert Rotate(seq1, k)[0] == seq1[k];
      if seq1[k] == headItem {
        assert k in startIndexes;
      }
    }
    return Value(false);
  }

  lemma RotateTwice<T>(s: seq<T>, j: nat, k: nat)
    requires j < |s| && k < |s|
    ensures Rotate(Rotate(s, j), k) == Rotate(s, if j + k < |s| then j + k else j + k - |s|)
  {
  }

  lemma RotationReflexive<T>(s: seq<T>)
    requires s != []
    ensures IsRotation(s, s)
  {
    assert Rotate(s, 0) == s;
  }

  lemma RotationSymmetric<T>(s: seq<T>, t: seq<T>)
    requires IsRotation(s, t)
    ensures IsRotation(t, s)
  {
    var k :| 0 <= k < |s| && Rotate(s, k) == t;
    var back := if k == 0 then 0 else |s| - k;
    RotateTwice(s, k, back);
    assert Rotate(s, 0) == s;
    assert Rotate(t, back) == s;
  }

  lemma RotationTransitive<T>(s: seq<T>, t: seq<T>, u: seq<T>)
    requires IsRotation(s, t) && IsRotation(t, u)
    ensures IsRotation(s, u)
  {
    var j :| 0 <= j < |s| && Rotate(s, j) == t;
    var k :| 0 <= k < |t| && Rotate(t, k) == u;
    RotateTwice(s, j, k);
  }
}
