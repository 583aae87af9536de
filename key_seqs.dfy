/**
 * Reference definitions over a tree's in-order key sequence, independent of the
 * node structure: where `lower_bound` and `upper_bound` land, and what
 * `insert_unique` makes of the sequence.
 *
 * The comparator `Compare` is modelled as a rank function: `comp(x, y)` is
 * `rank(x) < rank(y)`, which is a strict weak order, and two keys are equivalent
 * (neither compares less) exactly when their ranks are equal.
 */
module KeySeqs {

  /** Strictly increasing under the comparator: no two equivalent keys, ascending. */
  ghost predicate Increasing(rank: int -> int, ks: seq<int>)
  {
    forall i, j :: 0 <= i < j < |ks| ==> rank(ks[i]) < rank(ks[j])
  }

  /** Some key in `ks` is equivalent to `key`. */
  ghost predicate HasEquivalent(rank: int -> int, ks: seq<int>, key: int)
  {
    exists i :: 0 <= i < |ks| && rank(ks[i]) == rank(key)
  }

  /** The number of leading keys that compare less than `key`. */
  function LowerBoundIndex(rank: int -> int, ks: seq<int>, key: int): (i: nat)
    ensures i <= |ks|
    ensures forall j :: 0 <= j < i ==> rank(ks[j]) < rank(key)
    ensures i < |ks| ==> !(rank(ks[i]) < rank(key))
  {
    if ks == [] || !(rank(ks[0]) < rank(key)) then 0 else 1 + LowerBoundIndex(rank, ks[1..], key)
  }

  /** The number of leading keys that `key` does not compare less than. */
  function UpperBoundIndex(rank: int -> int, ks: seq<int>, key: int): (i: nat)
    ensures i <= |ks|
    ensures forall j :: 0 <= j < i ==> !(rank(key) < rank(ks[j]))
    ensures i < |ks| ==> rank(key) < rank(ks[i])
  {
    if ks == [] || rank(key) < rank(ks[0]) then 0 else 1 + UpperBoundIndex(rank, ks[1..], key)
  }

  /**
   * In an increasing sequence, any index that splits the keys into "less than key"
   * and "not less than key" is the lower bound.
   */
  lemma LowerBoundUnique(rank: int -> int, ks: seq<int>, key: int, w: int)
    requires 0 <= w <= |ks|
    requires forall j :: 0 <= j < w ==> rank(ks[j]) < rank(key)
    requires forall j :: w <= j < |ks| ==> !(rank(ks[j]) < rank(key))
    ensures w == LowerBoundIndex(rank, ks, key)
  {
    var i := LowerBoundIndex(rank, ks, key);
    if w < |ks| {
      assert !(rank(ks[w]) < rank(key));
    }
    if i < |ks| {
      assert !(rank(ks[i]) < rank(key));
    }
  }

  /** The same for the upper bound. */
  lemma UpperBoundUnique(rank: int -> int, ks: seq<int>, key: int, w: int)
    requires 0 <= w <= |ks|
    requires forall j :: 0 <= j < w ==> !(rank(key) < rank(ks[j]))
    requires forall j :: w <= j < |ks| ==> rank(key) < rank(ks[j])
    ensures w == UpperBoundIndex(rank, ks, key)
  {
    var i := UpperBoundIndex(rank, ks, key);
    if w < |ks| {
      assert rank(key) < rank(ks[w]);
    }
    if i < |ks| {
      assert rank(key) < rank(ks[i]);
    }
  }

  /**
   * In an increasing sequence the upper bound is the lower bound, or one past it
   * when the key at the lower bound is equivalent to `key`.
   */
  lemma UpperFromLower(rank: int -> int, ks: seq<int>, key: int)
    requires Increasing(rank, ks)
    ensures var lb := LowerBoundIndex(rank, ks, key);
            UpperBoundIndex(rank, ks, key) == if lb < |ks| && rank(ks[lb]) == rank(key) then lb + 1 else lb
  {
    var lb := LowerBoundIndex(rank, ks, key);
    var w := if lb < |ks| && rank(ks[lb]) == rank(key) then lb + 1 else lb;
    forall j | w <= j < |ks|
      ensures rank(key) < rank(ks[j])
    {
      if lb < j {
        assert rank(ks[lb]) < rank(ks[j]);
      }
    }
    UpperBoundUnique(rank, ks, key, w);
  }

  /** All keys up to one that compares less than `key` compare less too. */
  lemma LessUpTo(rank: int -> int, ks: seq<int>, key: int, i: int)
    requires Increasing(rank, ks) && 0 <= i < |ks| && rank(ks[i]) < rank(key)
    ensures forall j :: 0 <= j <= i ==> rank(ks[j]) < rank(key)
  {
  }

  /** All keys from one that does not compare less than `key` on do not either. */
  lemma NotLessFrom(rank: int -> int, ks: seq<int>, key: int, i: int)
    requires Increasing(rank, ks) && 0 <= i < |ks| && !(rank(ks[i]) < rank(key))
    ensures forall j :: i <= j < |ks| ==> !(rank(ks[j]) < rank(key))
  {
  }

  /** All keys up to one that `key` does not compare less than are not greater either. */
  lemma NotGreaterUpTo(rank: int -> int, ks: seq<int>, key: int, i: int)
    requires Increasing(rank, ks) && 0 <= i < |ks| && !(rank(key) < rank(ks[i]))
    ensures forall j :: 0 <= j <= i ==> !(rank(key) < rank(ks[j]))
  {
  }

  /** All keys from one that `key` compares less than on are greater too. */
  lemma GreaterFrom(rank: int -> int, ks: seq<int>, key: int, i: int)
    requires Increasing(rank, ks) && 0 <= i < |ks| && rank(key) < rank(ks[i])
    ensures forall j :: i <= j < |ks| ==> rank(key) < rank(ks[j])
  {
  }

  /** An equivalent key exists exactly when the key at the lower bound is one. */
  lemma EquivalentAtLowerBound(rank: int -> int, ks: seq<int>, key: int)
    requires Increasing(rank, ks)
    ensures var lb := LowerBoundIndex(rank, ks, key);
            HasEquivalent(rank, ks, key) <==> lb < |ks| && rank(ks[lb]) == rank(key)
  {
    var lb := LowerBoundIndex(rank, ks, key);
    if HasEquivalent(rank, ks, key) {
      var i :| 0 <= i < |ks| && rank(ks[i]) == rank(key);
      assert !(rank(ks[i]) < rank(key));
    }
  }

  /** An equivalent key is at the front or in the rest. */
  lemma HasEquivalentCons(rank: int -> int, ks: seq<int>, key: int)
    requires ks != []
    ensures HasEquivalent(rank, ks, key) <==> rank(ks[0]) == rank(key) || HasEquivalent(rank, ks[1..], key)
  {
    if HasEquivalent(rank, ks[1..], key) {
      var i :| 0 <= i < |ks[1..]| && rank(ks[1..][i]) == rank(key);
      assert rank(ks[i + 1]) == rank(key);
    }
    if HasEquivalent(rank, ks, key) && rank(ks[0]) != rank(key) {
      var i :| 0 <= i < |ks| && rank(ks[i]) == rank(key);
      assert rank(ks[1..][i - 1]) == rank(key);
    }
  }

  /**
   * What `insert_unique(key)` does to the key sequence: the key goes in front of the
   * first key it compares less than, unless an equivalent key is already there.
   */
  function SortedInsert(rank: int -> int, ks: seq<int>, key: int): seq<int>
  {
    if ks == [] then [key]
    else if rank(key) < rank(ks[0]) then [key] + ks
    else if rank(ks[0]) < rank(key) then [ks[0]] + SortedInsert(rank, ks[1..], key)
    else ks
  }

  /** With an equivalent key present, `SortedInsert` changes nothing. */
  lemma {:induction false} SortedInsertPresent(rank: int -> int, ks: seq<int>, key: int)
    requires Increasing(rank, ks) && HasEquivalent(rank, ks, key)
    ensures SortedInsert(rank, ks, key) == ks
  {
    var i :| 0 <= i < |ks| && rank(ks[i]) == rank(key);
    assert 0 < i ==> rank(ks[0]) < rank(ks[i]);
    if rank(ks[0]) < rank(key) {
      HasEquivalentCons(rank, ks, key);
      assert Increasing(rank, ks[1..]);
      SortedInsertPresent(rank, ks[1..], key);
    }
  }

  /** Without an equivalent key, `SortedInsert` puts the key at the lower bound. */
  lemma {:induction false} SortedInsertAbsent(rank: int -> int, ks: seq<int>, key: int)
    requires !HasEquivalent(rank, ks, key)
    ensures var k := LowerBoundIndex(rank, ks, key);
            SortedInsert(rank, ks, key) == ks[..k] + [key] + ks[k..]
  {
    if ks != [] && !(rank(key) < rank(ks[0])) {
      var t := ks[1..];
      assert !HasEquivalent(rank, t, key) && rank(ks[0]) < rank(key) by {
        HasEquivalentCons(rank, ks, key);
      }
      SortedInsertAbsent(rank, t, key);
      var k := LowerBoundIndex(rank, t, key);
      assert LowerBoundIndex(rank, ks, key) == k + 1;
      assert SortedInsert(rank, ks, key) == [ks[0]] + (t[..k] + [key] + t[k..]);
      ConsSplit(ks, k);
    }
  }

  lemma ConsSplit(ks: seq<int>, k: int)
    requires 0 <= k < |ks|
    ensures forall x :: [ks[0]] + (ks[1..][..k] + [x] + ks[1..][k..]) == ks[..k + 1] + [x] + ks[k + 1..]
  {
    forall x
      ensures [ks[0]] + (ks[1..][..k] + [x] + ks[1..][k..]) == ks[..k + 1] + [x] + ks[k + 1..]
    {
      assert ks[..k + 1] == [ks[0]] + ks[1..][..k];
      assert ks[k + 1..] == ks[1..][k..];
    }
  }

  /** A key with no equivalent, put at its lower bound, keeps the sequence increasing. */
  lemma InsertAtLowerBoundIncreasing(rank: int -> int, ks: seq<int>, key: int)
    requires Increasing(rank, ks) && !HasEquivalent(rank, ks, key)
    ensures var k := LowerBoundIndex(rank, ks, key);
            Increasing(rank, ks[..k] + [key] + ks[k..])
  {
    var k := LowerBoundIndex(rank, ks, key);
    var r := ks[..k] + [key] + ks[k..];
    forall m | k <= m < |ks|
      ensures rank(key) < rank(ks[m])
    {
      assert k < m ==> rank(ks[k]) < rank(ks[m]);
      assert rank(ks[m]) != rank(key);
    }
    forall i, j | 0 <= i < j < |r|
      ensures rank(r[i]) < rank(r[j])
    {
      assert r[i] == if i < k then ks[i] else if i == k then key else ks[i - 1];
      assert r[j] == if j < k then ks[j] else if j == k then key else ks[j - 1];
    }
  }

  /**
   * `SortedInsert` on an increasing sequence: with an equivalent key present the
   * sequence is unchanged; otherwise the key lands at the lower bound. Either way
   * the result is increasing.
   */
  lemma SortedInsertAt(rank: int -> int, ks: seq<int>, key: int)
    requires Increasing(rank, ks)
    ensures var k := LowerBoundIndex(rank, ks, key);
            && (HasEquivalent(rank, ks, key) ==> SortedInsert(rank, ks, key) == ks)
            && (!HasEquivalent(rank, ks, key) ==> SortedInsert(rank, ks, key) == ks[..k] + [key] + ks[k..])
            && Increasing(rank, SortedInsert(rank, ks, key))
  {
    if HasEquivalent(rank, ks, key) {
      SortedInsertPresent(rank, ks, key);
    } else {
      SortedInsertAbsent(rank, ks, key);
      InsertAtLowerBoundIncreasing(rank, ks, key);
    }
  }

  /**
   * `key` fits at position k: every key before k compares less than it and it
   * compares less than every key from k on.
   */
  ghost predicate Fits(rank: int -> int, ks: seq<int>, k: int, key: int)
  {
    && 0 <= k <= |ks|
    && (forall j :: 0 <= j < k ==> rank(ks[j]) < rank(key))
    && (forall j :: k <= j < |ks| ==> rank(key) < rank(ks[j]))
  }

  /**
   * Just before the upper bound sits the last key `key` does not compare less than.
   * When that key compares less than `key` (or there is none), `key` fits at the
   * upper bound and has no equivalent.
   */
  lemma UpperBoundFits(rank: int -> int, ks: seq<int>, key: int)
    requires Increasing(rank, ks)
    requires var g := UpperBoundIndex(rank, ks, key); g == 0 || rank(ks[g - 1]) < rank(key)
    ensures Fits(rank, ks, UpperBoundIndex(rank, ks, key), key)
    ensures !HasEquivalent(rank, ks, key)
  {
    var g := UpperBoundIndex(rank, ks, key);
    forall j | 0 <= j < g
      ensures rank(ks[j]) < rank(key)
    {
      if j < g - 1 {
        assert rank(ks[j]) < rank(ks[g - 1]);
      }
    }
    FitsIsSortedInsert(rank, ks, g, key);
  }

  /** Otherwise that key is equivalent to `key`, and it is the lower bound. */
  lemma UpperBoundEquivalent(rank: int -> int, ks: seq<int>, key: int)
    requires Increasing(rank, ks)
    requires var g := UpperBoundIndex(rank, ks, key); g > 0 && !(rank(ks[g - 1]) < rank(key))
    ensures var g := UpperBoundIndex(rank, ks, key);
            && rank(ks[g - 1]) == rank(key) && HasEquivalent(rank, ks, key)
            && LowerBoundIndex(rank, ks, key) == g - 1
  {
    var g := UpperBoundIndex(rank, ks, key);
    assert !(rank(key) < rank(ks[g - 1]));
    forall j | 0 <= j < g - 1
      ensures rank(ks[j]) < rank(key)
    {
      assert rank(ks[j]) < rank(ks[g - 1]);
    }
    forall j | g - 1 <= j < |ks|
      ensures !(rank(ks[j]) < rank(key))
    {
      if j >= g {
        assert rank(key) < rank(ks[j]);
      }
    }
    LowerBoundUnique(rank, ks, key, g - 1);
  }

  /** In an increasing sequence a key fits between two neighbours it lies strictly between. */
  lemma FitsBetween(rank: int -> int, ks: seq<int>, k: int, key: int)
    requires Increasing(rank, ks) && 0 <= k <= |ks|
    requires k > 0 ==> rank(ks[k - 1]) < rank(key)
    requires k < |ks| ==> rank(key) < rank(ks[k])
    ensures Fits(rank, ks, k, key)
  {
    forall j | 0 <= j < k
      ensures rank(ks[j]) < rank(key)
    {
      if j < k - 1 {
        assert rank(ks[j]) < rank(ks[k - 1]);
      }
    }
    forall j | k <= j < |ks|
      ensures rank(key) < rank(ks[j])
    {
      if k < j {
        assert rank(ks[k]) < rank(ks[j]);
      }
    }
  }

  /** A key equivalent to `key` is the only one, so it sits at the lower bound. */
  lemma EquivalentIsLowerBound(rank: int -> int, ks: seq<int>, key: int, i: int)
    requires Increasing(rank, ks) && 0 <= i < |ks| && rank(ks[i]) == rank(key)
    ensures HasEquivalent(rank, ks, key) && LowerBoundIndex(rank, ks, key) == i
  {
    forall j | 0 <= j < i
      ensures rank(ks[j]) < rank(key)
    {
      assert rank(ks[j]) < rank(ks[i]);
    }
    forall j | i <= j < |ks|
      ensures !(rank(ks[j]) < rank(key))
    {
      if i < j {
        assert rank(ks[i]) < rank(ks[j]);
      }
    }
    LowerBoundUnique(rank, ks, key, i);
  }

  /**
   * A key that fits at k has no equivalent, k is its lower bound, and putting it
   * there is exactly `SortedInsert`.
   */
  lemma FitsIsSortedInsert(rank: int -> int, ks: seq<int>, k: int, key: int)
    requires Increasing(rank, ks) && Fits(rank, ks, k, key)
    ensures !HasEquivalent(rank, ks, key) && k == LowerBoundIndex(rank, ks, key)
    ensures SortedInsert(rank, ks, key) == ks[..k] + [key] + ks[k..]
    ensures Increasing(rank, ks[..k] + [key] + ks[k..])
  {
    forall j | k <= j < |ks|
      ensures !(rank(ks[j]) < rank(key))
    {
      assert rank(key) < rank(ks[j]);
    }
    LowerBoundUnique(rank, ks, key, k);
    SortedInsertAt(rank, ks, key);
  }

  /**
   * Inserting the keys of `ks` one by one, with `insert_unique`, into a tree whose
   * keys are `acc`.
   */
  function InsertAll(rank: int -> int, acc: seq<int>, ks: seq<int>): seq<int>
    decreases |ks|
  {
    if ks == [] then acc else InsertAll(rank, SortedInsert(rank, acc, ks[0]), ks[1..])
  }

  /** Inserting one more key is one more `SortedInsert`, so a loop can build `InsertAll`. */
  lemma {:induction false} InsertAllSnoc(rank: int -> int, acc: seq<int>, ks: seq<int>, x: int)
    ensures InsertAll(rank, acc, ks + [x]) == SortedInsert(rank, InsertAll(rank, acc, ks), x)
    decreases |ks|
  {
    if ks == [] {
      assert ks + [x] == [x];
    } else {
      assert (ks + [x])[0] == ks[0] && (ks + [x])[1..] == ks[1..] + [x];
      InsertAllSnoc(rank, SortedInsert(rank, acc, ks[0]), ks[1..], x);
    }
  }

  /** `SortedInsert` keeps every key, adds nothing but `key`, and leaves a key equivalent to `key`. */
  lemma SortedInsertElements(rank: int -> int, ks: seq<int>, key: int)
    requires Increasing(rank, ks)
    ensures forall x :: x in ks ==> x in SortedInsert(rank, ks, key)
    ensures forall x :: x in SortedInsert(rank, ks, key) ==> x in ks || x == key
    ensures HasEquivalent(rank, SortedInsert(rank, ks, key), key)
  {
    SortedInsertAt(rank, ks, key);
    var r := SortedInsert(rank, ks, key);
    if !HasEquivalent(rank, ks, key) {
      var k := LowerBoundIndex(rank, ks, key);
      assert ks == ks[..k] + ks[k..];
      assert r[k] == key;
    }
  }

  /** A key that occurs in `ks` has an equivalent there. */
  lemma MemberIsEquivalent(rank: int -> int, ks: seq<int>, x: int)
    requires x in ks
    ensures HasEquivalent(rank, ks, x)
  {
    var i :| 0 <= i < |ks| && ks[i] == x;
    assert rank(ks[i]) == rank(x);
  }

  /**
   * Inserting a sequence of keys one by one into an increasing sequence: the result
   * is increasing, keeps every key it started with, holds nothing but those and the
   * inserted keys, and has an equivalent of every inserted key.
   */
  lemma {:induction false} InsertAllOK(rank: int -> int, acc: seq<int>, ks: seq<int>)
    requires Increasing(rank, acc)
    ensures Increasing(rank, InsertAll(rank, acc, ks))
    ensures forall x :: x in acc ==> x in InsertAll(rank, acc, ks)
    ensures forall x :: x in InsertAll(rank, acc, ks) ==> x in acc || x in ks
    ensures forall x :: x in ks ==> HasEquivalent(rank, InsertAll(rank, acc, ks), x)
    decreases |ks|
  {
    if ks != [] {
      var acc' := SortedInsert(rank, acc, ks[0]);
      SortedInsertAt(rank, acc, ks[0]);
      SortedInsertElements(rank, acc, ks[0]);
      InsertAllOK(rank, acc', ks[1..]);
      var r := InsertAll(rank, acc, ks);
      assert r == InsertAll(rank, acc', ks[1..]);
      forall x | x in ks
        ensures HasEquivalent(rank, r, x)
      {
        if x != ks[0] {
          assert x in ks[1..];
        } else {
          var i :| 0 <= i < |acc'| && rank(acc'[i]) == rank(x);
          MemberIsEquivalent(rank, r, acc'[i]);
          var j :| 0 <= j < |r| && rank(r[j]) == rank(acc'[i]);
        }
      }
    }
  }

  /** Dropping the key at one position keeps the sequence strictly increasing. */
  lemma RemoveIncreasing(rank: int -> int, ks: seq<int>, k: int)
    requires Increasing(rank, ks) && 0 <= k < |ks|
    ensures Increasing(rank, ks[..k] + ks[k + 1..])
  {
    var r := ks[..k] + ks[k + 1..];
    forall i, j | 0 <= i < j < |r|
      ensures rank(r[i]) < rank(r[j])
    {
      var i', j' := if i < k then i else i + 1, if j < k then j else j + 1;
      assert r[i] == ks[i'] && r[j] == ks[j'];
    }
  }

  /** What `erase(key)` does to the key sequence: every equivalent key is gone. */
  function RemoveEquivalent(rank: int -> int, ks: seq<int>, key: int): (r: seq<int>)
    ensures !HasEquivalent(rank, r, key) && |r| <= |ks|
    ensures forall x :: x in r ==> x in ks
  {
    if ks == [] then []
    else if rank(ks[0]) == rank(key) then RemoveEquivalent(rank, ks[1..], key)
    else [ks[0]] + RemoveEquivalent(rank, ks[1..], key)
  }

  /** Without an equivalent key, `RemoveEquivalent` changes nothing. */
  lemma {:induction false} RemoveAbsent(rank: int -> int, ks: seq<int>, key: int)
    requires !HasEquivalent(rank, ks, key)
    ensures RemoveEquivalent(rank, ks, key) == ks
  {
    if ks != [] {
      HasEquivalentCons(rank, ks, key);
      RemoveAbsent(rank, ks[1..], key);
    }
  }

  /** The tail of an increasing sequence is increasing, and its keys rank above the head's. */
  lemma IncreasingTail(rank: int -> int, ks: seq<int>)
    requires Increasing(rank, ks) && ks != []
    ensures Increasing(rank, ks[1..])
    ensures forall i :: 0 <= i < |ks[1..]| ==> rank(ks[0]) < rank(ks[1..][i])
  {
    forall i | 0 <= i < |ks[1..]|
      ensures rank(ks[0]) < rank(ks[1..][i])
    {
      assert ks[1..][i] == ks[i + 1];
    }
  }

  /**
   * In an increasing sequence the key equivalent to `key` is the only one, so
   * `RemoveEquivalent` drops exactly its position.
   */
  lemma {:induction false} RemoveEquivalentAt(rank: int -> int, ks: seq<int>, key: int, k: int)
    requires Increasing(rank, ks) && 0 <= k < |ks| && rank(ks[k]) == rank(key)
    ensures RemoveEquivalent(rank, ks, key) == ks[..k] + ks[k + 1..]
  {
    var t := ks[1..];
    if k == 0 {
      NothingEquivalentAfter(rank, ks, key);
      RemoveAbsent(rank, t, key);
      assert ks[..0] + ks[1..] == t;
    } else {
      assert rank(ks[0]) < rank(ks[k]);
      IncreasingTail(rank, ks);
      assert t[k - 1] == ks[k];
      RemoveEquivalentAt(rank, t, key, k - 1);
      assert t[..k - 1] + t[k..] == ks[1..k] + ks[k + 1..];
      assert ks[..k] == [ks[0]] + ks[1..k];
    }
  }

  /** In an increasing sequence no key after the first is equivalent to it. */
  lemma NothingEquivalentAfter(rank: int -> int, ks: seq<int>, key: int)
    requires Increasing(rank, ks) && ks != [] && rank(ks[0]) == rank(key)
    ensures !HasEquivalent(rank, ks[1..], key)
  {
    forall i | 0 <= i < |ks[1..]|
      ensures rank(ks[1..][i]) != rank(key)
    {
      assert ks[1..][i] == ks[i + 1];
    }
  }

  /** Removing the first key after a gap `[i, i + m)` widens the gap by one. */
  lemma WidenGap(ks: seq<int>, i: int, m: int)
    requires 0 <= i && 0 <= m && i + m < |ks|
    ensures var c := ks[..i] + ks[i + m..];
            c[..i] + c[i + 1..] == ks[..i] + ks[i + m + 1..]
  {
    var c := ks[..i] + ks[i + m..];
    assert c[..i] == ks[..i];
    assert c[i + 1..] == ks[i + m + 1..];
  }
}
