/** Small facts about sequences that several proofs share. */
module Seqs {
  /** Concatenation is associative; stating it as a lemma lets a proof
      regroup a concatenation without the solver searching for it. */
  lemma AppendAssoc<T>(a: seq<T>, b: seq<T>, c: seq<T>)
    ensures a + (b + c) == (a + b) + c
  {
  }

  /** What a sequence lacks, its tail lacks too. */
  lemma NotInTail<T>(x: T, s: seq<T>)
    requires |s| > 0 && x !in s
    ensures x !in s[1..]
  {
    forall k | 0 <= k < |s[1..]| ensures s[1..][k] != x {
      assert s[1..][k] == s[k + 1];
    }
  }

  /** `s.filter(keep)`: the elements `keep` accepts, in order. */
  function Filter<T(!new)>(s: seq<T>, keep: T -> bool): (kept: seq<T>)
    ensures |kept| <= |s|
    ensures forall k :: 0 <= k < |kept| ==> keep(kept[k])
    ensures forall x :: x in kept <==> x in s && keep(x)
  {
    if |s| == 0 then []
    else
      var n := |s| - 1;
      assert s == s[..n] + [s[n]];
      Filter(s[..n], keep) + (if keep(s[n]) then [s[n]] else [])
  }

  /** The set `S` moved one place up: the indices of `s[1..]` seen as
      indices of `s`. */
  ghost function Shift(S: set<int>): set<int> {
    set k | k in S :: k + 1
  }

  /** Moving every index of a set of sequence indices one place up loses
      none of them. */
  lemma {:induction false} ShiftCard(S: set<int>, n: nat)
    requires forall k :: k in S ==> 0 <= k < n
    ensures |Shift(S)| == |S|
    decreases n
  {
    if n == 0 {
      assert forall k :: k !in S;
      assert S == {};
      assert Shift(S) == {};
    } else {
      var rest := S - {n - 1};
      ShiftCard(rest, n - 1);
      if n - 1 in S {
        assert S == rest + {n - 1};
        assert Shift(S) == Shift(rest) + {n};
      } else {
        assert S == rest;
      }
    }
  }
}
