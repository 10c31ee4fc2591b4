/** Elementwise numpy operations on mass columns, written over sequences. */
module Sequences {

  /** Every element is strictly greater than the one before it. */
  predicate StrictlyIncreasing(s: seq<real>)
  {
    forall i, j :: 0 <= i < j < |s| ==> s[i] < s[j]
  }

  /**
   * `s + d` for a numpy array `s` and a scalar `d`: every element moves by `d`,
   * so the difference between any two elements is kept.
   */
  function Shifted(s: seq<real>, d: real): (r: seq<real>)
    ensures |r| == |s|
    ensures forall i :: 0 <= i < |s| ==> r[i] - s[i] == d
    ensures forall i, j :: 0 <= i < |s| && 0 <= j < |s| ==> r[j] - r[i] == s[j] - s[i]
  {
    seq(|s|, i requires 0 <= i < |s| => s[i] + d)
  }

  /** `s[idx]` for an integer index array `idx` (fancy indexing): one element per index, in index order. */
  function Gather<T>(s: seq<T>, idx: seq<nat>): (r: seq<T>)
    requires forall j :: 0 <= j < |idx| ==> idx[j] < |s|
    ensures |r| == |idx|
    ensures forall j :: 0 <= j < |idx| ==> r[j] == s[idx[j]]
  {
    seq(|idx|, j requires 0 <= j < |idx| => s[idx[j]])
  }

  /** `s[mask]` for a boolean mask of the same length: the flagged elements, in order. */
  function Select<T>(s: seq<T>, mask: seq<bool>): (r: seq<T>)
    requires |s| == |mask|
    ensures |r| <= |s|
    ensures |r| > 0 <==> true in mask
  {
    if s == [] then []
    else
      assert mask == [mask[0]] + mask[1..];
      (if mask[0] then [s[0]] else []) + Select(s[1..], mask[1..])
  }

  /** Number of `true` flags. */
  function NumTrue(mask: seq<bool>): nat
  {
    if mask == [] then 0 else (if mask[0] then 1 else 0) + NumTrue(mask[1..])
  }

  /** Masking keeps exactly as many elements as there are `true` flags. */
  lemma {:induction false} SelectLength<T>(s: seq<T>, mask: seq<bool>)
    requires |s| == |mask|
    ensures |Select(s, mask)| == NumTrue(mask)
  {
    if s != [] {
      SelectLength(s[1..], mask[1..]);
    }
  }

  /** An element survives the mask exactly when some flagged position holds it. */
  lemma {:induction false} SelectMembers<T>(s: seq<T>, mask: seq<bool>, x: T)
    requires |s| == |mask|
    ensures x in Select(s, mask) <==> exists i :: 0 <= i < |s| && mask[i] && s[i] == x
  {
    if s != [] {
      SelectMembers(s[1..], mask[1..], x);
      if x in Select(s[1..], mask[1..]) {
        var i :| 0 <= i < |s| - 1 && mask[1..][i] && s[1..][i] == x;
        assert mask[i + 1] && s[i + 1] == x;
      }
      if exists i :: 0 <= i < |s| && mask[i] && s[i] == x {
        var i :| 0 <= i < |s| && mask[i] && s[i] == x;
        if i > 0 {
          assert mask[1..][i - 1] && s[1..][i - 1] == x;
        }
      }
    }
  }

  /** Masking keeps the order of the input, so an ascending column stays ascending. */
  lemma {:induction false} SelectIncreasing(s: seq<real>, mask: seq<bool>)
    requires |s| == |mask|
    requires StrictlyIncreasing(s)
    ensures StrictlyIncreasing(Select(s, mask))
  {
    if s != [] {
      assert StrictlyIncreasing(s[1..]) by {
        forall i, j | 0 <= i < j < |s| - 1 ensures s[1..][i] < s[1..][j] {
          assert s[1..][i] == s[i + 1] && s[1..][j] == s[j + 1];
        }
      }
      SelectIncreasing(s[1..], mask[1..]);
      var rest := Select(s[1..], mask[1..]);
      forall x | x in rest
        ensures s[0] < x
      {
        SelectMembers(s[1..], mask[1..], x);
      }
      var head := if mask[0] then [s[0]] else [];
      assert Select(s, mask) == head + rest;
      forall i, j | 0 <= i < j < |head + rest|
        ensures (head + rest)[i] < (head + rest)[j]
      {
        if i < |head| {
          assert (head + rest)[j] in rest;
        }
      }
    }
  }

  /** Shifting then masking is masking then shifting. */
  lemma {:induction false} SelectShifted(s: seq<real>, mask: seq<bool>, d: real)
    requires |s| == |mask|
    ensures Select(Shifted(s, d), mask) == Shifted(Select(s, mask), d)
  {
    if s != [] {
      SelectShifted(s[1..], mask[1..], d);
      assert Shifted(s, d)[1..] == Shifted(s[1..], d);
    }
  }

  /** Counting flags is additive over concatenation. */
  lemma {:induction false} NumTrueAppend(a: seq<bool>, b: seq<bool>)
    ensures NumTrue(a + b) == NumTrue(a) + NumTrue(b)
  {
    if a != [] {
      assert (a + b)[1..] == a[1..] + b;
      NumTrueAppend(a[1..], b);
    } else {
      assert a + b == b;
    }
  }

  /** A mask whose only `true` flag is at `k` counts one. */
  lemma {:induction false} NumTrueSingle(mask: seq<bool>, k: nat)
    requires k < |mask|
    requires forall j :: 0 <= j < |mask| ==> (mask[j] <==> j == k)
    ensures NumTrue(mask) == 1
  {
    if k == 0 {
      assert true !in mask[1..] by {
        forall j | 0 <= j < |mask| - 1 ensures !mask[1..][j] {
          assert mask[1..][j] == mask[j + 1];
        }
      }
      NumTrueNone(mask[1..]);
    } else {
      forall j | 0 <= j < |mask| - 1
        ensures mask[1..][j] <==> j == k - 1
      {
        assert mask[1..][j] == mask[j + 1];
      }
      NumTrueSingle(mask[1..], k - 1);
    }
  }

  /** A mask without a `true` flag counts zero. */
  lemma {:induction false} NumTrueNone(mask: seq<bool>)
    requires true !in mask
    ensures NumTrue(mask) == 0
  {
    if mask != [] {
      assert true !in mask[1..];
      NumTrueNone(mask[1..]);
    }
  }

  /** Ascending indices into an ascending column pick an ascending column. */
  lemma {:induction false} GatherIncreasing(s: seq<real>, idx: seq<nat>)
    requires forall j :: 0 <= j < |idx| ==> idx[j] < |s|
    requires StrictlyIncreasing(s)
    requires forall i, j :: 0 <= i < j < |idx| ==> idx[i] < idx[j]
    ensures StrictlyIncreasing(Gather(s, idx))
  {
    forall i, j | 0 <= i < j < |idx|
      ensures Gather(s, idx)[i] < Gather(s, idx)[j]
    {
      assert idx[i] < idx[j];
    }
  }

  /** Shifting keeps an ascending column ascending. */
  lemma ShiftedIncreasing(s: seq<real>, d: real)
    requires StrictlyIncreasing(s)
    ensures StrictlyIncreasing(Shifted(s, d))
  {
  }
}
