/** Generic sequence helpers the rail-fence model is built from: counting
    occurrences (Python's `list.count`), summing, flattening a list of lists
    (`[item for r in fence for item in r]`) and cutting a sequence into
    consecutive slices of given sizes. */
module Sequences {

  /** Number of occurrences of `x` in `s`. Defined from the back so that
      `Count(s[..i], x)` is the number of `x` seen before position `i`. */
  function Count<T(==)>(s: seq<T>, x: T): (c: nat)
    ensures c <= |s|
    decreases |s|
  {
    if |s| == 0 then 0
    else
      assert s == s[..|s| - 1] + [s[|s| - 1]];
      Count(s[..|s| - 1], x) + (if s[|s| - 1] == x then 1 else 0)
  }

  /** Extending a prefix by one element adds one exactly when that element is `x`. */
  lemma CountPrefixStep<T>(s: seq<T>, x: T, i: nat)
    requires i < |s|
    ensures Count(s[..i + 1], x) == Count(s[..i], x) + (if s[i] == x then 1 else 0)
  {
    assert s[..i + 1][..i] == s[..i];
  }

  /** Extending a prefix by one element adds one to that element's count and
      leaves every other count alone. */
  lemma CountPrefixStepAll<T>(s: seq<T>, i: nat)
    requires i < |s|
    ensures forall x :: Count(s[..i + 1], x) == Count(s[..i], x) + (if s[i] == x then 1 else 0)
  {
    assert s[..i + 1][..i] == s[..i];
  }

  /** Dropping the last element never raises a count. */
  lemma CountDropLast<T>(s: seq<T>)
    requires |s| > 0
    ensures forall x :: Count(s[..|s| - 1], x) <= Count(s, x)
  {
  }

  /** A non-empty sequence holds the items of all but its last element, plus
      that last element. */
  lemma MultisetSnoc<T>(s: seq<T>, n: nat)
    requires n + 1 == |s|
    ensures multiset(s) == multiset(s[..n]) + multiset{s[n]}
  {
    assert s == s[..n] + [s[n]];
  }

  /** `Count` agrees with the multiplicity of `x` in the multiset of `s`. */
  lemma {:induction false} CountIsMultiplicity<T>(s: seq<T>, x: T)
    ensures Count(s, x) == multiset(s)[x]
    decreases |s|
  {
    if |s| > 0 {
      var n := |s| - 1;
      CountIsMultiplicity(s[..n], x);
      MultisetSnoc(s, n);
    }
  }

  /** Counting over a longer prefix never gives less. */
  lemma {:induction false} CountMonotone<T>(s: seq<T>, x: T, i: nat, j: nat)
    requires i <= j <= |s|
    ensures Count(s[..i], x) <= Count(s[..j], x)
    decreases j - i
  {
    if i < j {
      CountMonotone(s, x, i + 1, j);
      CountPrefixStep(s, x, i);
    }
  }

  /** A prefix holds no more occurrences of anything than the whole sequence. */
  lemma CountPrefixAtMost<T>(s: seq<T>, i: nat)
    requires i <= |s|
    ensures forall x :: Count(s[..i], x) <= Count(s, x)
  {
    forall x
      ensures Count(s[..i], x) <= Count(s, x)
    {
      CountMonotone(s, x, i, |s|);
      assert s[..|s|] == s;
    }
  }

  /** The occurrences of `s[i]` strictly before `i` are fewer than all of its
      occurrences: `Count(s[..i], s[i])` is a valid index among them. */
  lemma CountBefore<T>(s: seq<T>, i: nat)
    requires i < |s|
    ensures Count(s[..i], s[i]) < Count(s, s[i])
  {
    CountPrefixStep(s, s[i], i);
    CountMonotone(s, s[i], i + 1, |s|);
    assert s[..|s|] == s;
  }

  /** Two positions holding the same value get distinct, increasing ranks. */
  lemma CountRankIncreasing<T>(s: seq<T>, i: nat, j: nat)
    requires i < j < |s| && s[i] == s[j]
    ensures Count(s[..i], s[i]) < Count(s[..j], s[j])
  {
    CountPrefixStep(s, s[i], i);
    CountMonotone(s, s[i], i + 1, j);
  }

  function Sum(xs: seq<nat>): nat
    decreases |xs|
  {
    if |xs| == 0 then 0 else xs[0] + Sum(xs[1..])
  }

  /** Incrementing one entry increments the total. */
  lemma {:induction false} SumIncrement(xs: seq<nat>, p: nat)
    requires p < |xs|
    ensures Sum(xs[p := xs[p] + 1]) == Sum(xs) + 1
    decreases p
  {
    var ys := xs[p := xs[p] + 1];
    if p > 0 {
      assert ys[1..] == xs[1..][p - 1 := xs[1..][p - 1] + 1];
      SumIncrement(xs[1..], p - 1);
    } else {
      assert ys[1..] == xs[1..];
    }
  }

  /** The sum of a prefix plus the next entry never exceeds the whole sum. */
  lemma {:induction false} SumPrefixBound(xs: seq<nat>, r: nat)
    requires r < |xs|
    ensures Sum(xs[..r]) + xs[r] <= Sum(xs)
    decreases r
  {
    if r > 0 {
      assert xs[..r][1..] == xs[1..][..r - 1];
      SumPrefixBound(xs[1..], r - 1);
    }
  }

  /** The sum of a prefix one entry longer adds that entry. */
  lemma {:induction false} SumSnoc(xs: seq<nat>, r: nat)
    requires r < |xs|
    ensures Sum(xs[..r + 1]) == Sum(xs[..r]) + xs[r]
    decreases r
  {
    if r > 0 {
      assert xs[..r + 1][1..] == xs[1..][..r];
      assert xs[..r][1..] == xs[1..][..r - 1];
      SumSnoc(xs[1..], r - 1);
    }
  }

  /** The size of every inner sequence, in order. */
  function Lengths<T>(fs: seq<seq<T>>): (ls: seq<nat>)
    ensures |ls| == |fs|
    ensures forall i :: 0 <= i < |fs| ==> ls[i] == |fs[i]|
    decreases |fs|
  {
    if |fs| == 0 then [] else [|fs[0]|] + Lengths(fs[1..])
  }

  /** Concatenation of all inner sequences, front to back. */
  function Flatten<T>(fs: seq<seq<T>>): (r: seq<T>)
    ensures |r| == Sum(Lengths(fs))
    decreases |fs|
  {
    if |fs| == 0 then [] else fs[0] + Flatten(fs[1..])
  }

  /** Flattening a prefix one inner sequence longer appends that sequence. */
  lemma {:induction false} FlattenSnoc<T>(fs: seq<seq<T>>, r: nat)
    requires r < |fs|
    ensures Flatten(fs[..r + 1]) == Flatten(fs[..r]) + fs[r]
    decreases r
  {
    if r > 0 {
      assert fs[..r + 1][1..] == fs[1..][..r];
      assert fs[..r][1..] == fs[1..][..r - 1];
      FlattenSnoc(fs[1..], r - 1);
    } else {
      assert fs[..1][1..] == [];
    }
  }

  /** Flattening only empty sequences gives the empty sequence. */
  lemma {:induction false} FlattenEmpties<T>(fs: seq<seq<T>>)
    requires forall i :: 0 <= i < |fs| ==> fs[i] == []
    ensures Flatten(fs) == []
    decreases |fs|
  {
    if |fs| > 0 {
      FlattenEmpties(fs[1..]);
    }
  }

  /** Appending `x` to any one inner sequence adds exactly one `x` to the
      multiset of the flattened result. */
  lemma {:induction false} FlattenAppendAt<T>(fs: seq<seq<T>>, p: nat, x: T)
    requires p < |fs|
    ensures multiset(Flatten(fs[p := fs[p] + [x]])) == multiset(Flatten(fs)) + multiset{x}
    decreases p
  {
    var gs := fs[p := fs[p] + [x]];
    if p == 0 {
      assert gs[1..] == fs[1..];
    } else {
      assert gs[1..] == fs[1..][p - 1 := fs[1..][p - 1] + [x]];
      FlattenAppendAt(fs[1..], p - 1, x);
    }
  }

  /** Item `k` of inner sequence `r` sits in the flattened sequence right after
      everything held by the inner sequences before `r`. */
  lemma {:induction false} FlattenAt<T>(fs: seq<seq<T>>, r: nat, k: nat)
    requires r < |fs| && k < |fs[r]|
    ensures Sum(Lengths(fs)[..r]) + k < |Flatten(fs)|
    ensures Flatten(fs)[Sum(Lengths(fs)[..r]) + k] == fs[r][k]
    decreases r
  {
    SumPrefixBound(Lengths(fs), r);
    if r > 0 {
      assert Lengths(fs)[..r][1..] == Lengths(fs[1..])[..r - 1];
      FlattenAt(fs[1..], r - 1, k);
    }
  }

  /** `FlattenAt` with the inner sizes given as a known sequence `counts`
      and the flat position named `pos`. */
  lemma FlattenAtOffset<T>(fs: seq<seq<T>>, counts: seq<nat>, r: nat, k: nat, pos: nat)
    requires Lengths(fs) == counts && r < |fs| && k < |fs[r]|
    requires pos == Sum(counts[..r]) + k
    ensures pos < |Flatten(fs)|
    ensures Flatten(fs)[pos] == fs[r][k]
  {
    FlattenAt(fs, r, k);
  }

  /** Cuts `s` into consecutive slices whose sizes are `counts`, in order;
      the `data[idx:idx + count]` loop of the decryption. */
  function Split<T>(s: seq<T>, counts: seq<nat>): (chunks: seq<seq<T>>)
    requires Sum(counts) <= |s|
    ensures |chunks| == |counts|
    ensures forall r :: 0 <= r < |counts| ==> |chunks[r]| == counts[r]
    decreases |counts|
  {
    if |counts| == 0 then []
    else
      var rest := Split(s[counts[0]..], counts[1..]);
      var chunks := [s[..counts[0]]] + rest;
      assert chunks[1..] == rest;
      chunks
  }

  /** The slices are contiguous and together cover the first `Sum(counts)`
      items of `s`, in order. */
  lemma {:induction false} SplitCovers<T>(s: seq<T>, counts: seq<nat>)
    requires Sum(counts) <= |s|
    ensures Flatten(Split(s, counts)) == s[..Sum(counts)]
    decreases |counts|
  {
    if |counts| > 0 {
      var chunks := Split(s, counts);
      SplitCovers(s[counts[0]..], counts[1..]);
      assert chunks[1..] == Split(s[counts[0]..], counts[1..]);
      assert s[..counts[0]] + s[counts[0]..][..Sum(counts[1..])] == s[..Sum(counts)];
    }
  }

  /** Concatenation is associative. */
  lemma AppendAssoc<T>(a: seq<T>, b: seq<T>, c: seq<T>)
    ensures a + (b + c) == (a + b) + c
  {
  }

  /** A prefix one longer is the prefix followed by the next element. */
  lemma TakeSnoc<T>(xs: seq<T>, k: nat)
    requires k < |xs|
    ensures xs[..k + 1] == xs[..k] + [xs[k]]
  {
  }

  /** Slice `k` is the `counts[k]` items that follow all earlier slices. */
  lemma {:induction false} SplitChunk<T>(s: seq<T>, counts: seq<nat>, k: nat)
    requires Sum(counts) <= |s| && k < |counts|
    ensures Sum(counts[..k]) + counts[k] <= |s|
    ensures Split(s, counts)[k] == s[Sum(counts[..k])..Sum(counts[..k]) + counts[k]]
    decreases k
  {
    SumPrefixBound(counts, k);
    if k > 0 {
      var rest := s[counts[0]..];
      SplitChunk(rest, counts[1..], k - 1);
      assert counts[..k][1..] == counts[1..][..k - 1];
      assert Split(s, counts)[k] == Split(rest, counts[1..])[k - 1];
    }
  }

  /** The first `k + 1` slices are the first `k` followed by the next
      `counts[k]` items after them. */
  lemma SplitSnoc<T>(s: seq<T>, counts: seq<nat>, k: nat)
    requires Sum(counts) <= |s| && k < |counts|
    ensures Sum(counts[..k]) + counts[k] <= |s|
    ensures Sum(counts[..k + 1]) == Sum(counts[..k]) + counts[k]
    ensures Split(s, counts)[..k + 1]
         == Split(s, counts)[..k] + [s[Sum(counts[..k])..Sum(counts[..k]) + counts[k]]]
  {
    SplitChunk(s, counts, k);
    SumSnoc(counts, k);
    TakeSnoc(Split(s, counts), k);
  }

  /** Cutting a flattened sequence at the original sizes gives back the pieces. */
  lemma {:induction false} SplitFlatten<T>(fs: seq<seq<T>>)
    ensures Split(Flatten(fs), Lengths(fs)) == fs
    decreases |fs|
  {
    if |fs| > 0 {
      var f := Flatten(fs);
      assert f[..|fs[0]|] == fs[0];
      assert f[|fs[0]|..] == Flatten(fs[1..]);
      assert Lengths(fs)[1..] == Lengths(fs[1..]);
      SplitFlatten(fs[1..]);
    }
  }

  /** Item `k` of slice `r` is the item of `s` at `pos`, the slice's start
      plus `k`. */
  lemma SplitAt<T>(s: seq<T>, counts: seq<nat>, r: nat, k: nat, pos: nat)
    requires Sum(counts) <= |s|
    requires r < |counts| && k < counts[r]
    requires pos == Sum(counts[..r]) + k
    ensures pos < |s|
    ensures Split(s, counts)[r][k] == s[pos]
  {
    SplitChunk(s, counts, r);
    SliceAt(s, Split(s, counts)[r], Sum(counts[..r]), counts[r], k);
  }

  /** Item `k` of the slice `s[start..start + len]` is `s[start + k]`. */
  lemma SliceAt<T>(s: seq<T>, slice: seq<T>, start: nat, len: nat, k: nat)
    requires start + len <= |s| && slice == s[start..start + len] && k < len
    ensures start + k < |s| && slice[k] == s[start + k]
  {
  }
}
