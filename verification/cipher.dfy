/** The two operations of `cipher.py` written as the loops they are, each
    proved to compute the functional definition in `RailFence`. */
module Cipher {
  import opened Sequences
  import opened ZigZag
  import opened RailFence

  /** `rail_fence_encrypt`: bucket every item into the rail the walk is on,
      then concatenate the rails from 0 to `rails - 1`. */
  method RailFenceEncrypt<T>(data: seq<T>, rails: int) returns (out: seq<T>)
    requires rails >= 2
    ensures out == Encrypt(data, rails)
  {
    var fence := BucketRails(data, rails);
    out := ConcatRails(fence);
  }

  /** The bucketing loop of `rail_fence_encrypt`. The walk state stays valid,
      so `fence[rail]` is always in bounds. */
  method BucketRails<T>(data: seq<T>, rails: int) returns (fence: seq<seq<T>>)
    requires rails >= 2
    ensures fence == Fence(data, Pattern(|data|, rails), rails)
  {
    ghost var pat := Pattern(|data|, rails);
    fence := seq(rails, _ => []);
    var rail, direction := 0, 1;
    var i := 0;
    while i < |data|
      invariant 0 <= i <= |data|
      invariant Walk(rail, direction) == StateAt(i, rails)
      invariant fence == Fence(data[..i], pat[..i], rails)
    {
      PatternAt(|data|, rails, i);
      StepAt(i, rails);
      FenceSnoc(data, pat, rails, i);
      fence := fence[rail := fence[rail] + [data[i]]];
      rail := rail + direction;
      if rail == 0 || rail == rails - 1 {
        direction := direction * -1;
      }
      i := i + 1;
    }
    assert data[..|data|] == data;
    assert pat[..|data|] == pat;
  }

  /** `[item for r in fence for item in r]`. */
  method ConcatRails<T>(fence: seq<seq<T>>) returns (out: seq<T>)
    ensures out == Flatten(fence)
  {
    out := [];
    var r := 0;
    while r < |fence|
      invariant 0 <= r <= |fence|
      invariant out == Flatten(fence[..r])
    {
      FlattenSnoc(fence, r);
      out := out + fence[r];
      r := r + 1;
    }
    assert fence[..|fence|] == fence;
  }

  /** The `pattern` list of `rail_fence_decrypt`: the same walk, recorded. */
  method BuildPattern(n: nat, rails: int) returns (pattern: seq<int>)
    requires rails >= 2
    ensures pattern == Pattern(n, rails)
  {
    pattern := [];
    var rail, direction := 0, 1;
    var i := 0;
    while i < n
      invariant 0 <= i <= n
      invariant Walk(rail, direction) == StateAt(i, rails)
      invariant pattern == Pattern(i, rails)
    {
      StepAt(i, rails);
      pattern := pattern + [rail];
      rail := rail + direction;
      if rail == 0 || rail == rails - 1 {
        direction := direction * -1;
      }
      i := i + 1;
    }
  }

  /** `pattern.count(r)`. */
  method CountOf(pattern: seq<int>, r: int) returns (c: nat)
    ensures c == Count(pattern, r)
  {
    c := 0;
    var j := 0;
    while j < |pattern|
      invariant 0 <= j <= |pattern|
      invariant c == Count(pattern[..j], r)
    {
      CountPrefixStep(pattern, r, j);
      if pattern[j] == r {
        c := c + 1;
      }
      j := j + 1;
    }
    assert pattern[..|pattern|] == pattern;
  }

  /** `rail_counts = [pattern.count(r) for r in range(rails)]`. */
  method CountRails(pattern: seq<int>, rails: nat) returns (counts: seq<nat>)
    ensures counts == Counts(pattern, rails)
  {
    counts := [];
    var r := 0;
    while r < rails
      invariant 0 <= r <= rails
      invariant counts == Counts(pattern, rails)[..r]
    {
      var c := CountOf(pattern, r);
      counts := counts + [c];
      r := r + 1;
    }
  }

  /** The slicing loop: `data[idx:idx + count]` for each count in turn. The
      counts never run past the end of `data`, so no slice is cut short. */
  method SliceRails<T>(data: seq<T>, counts: seq<nat>) returns (railsData: seq<seq<T>>)
    requires Sum(counts) <= |data|
    ensures railsData == Split(data, counts)
  {
    ghost var chunks := Split(data, counts);
    railsData := [];
    var idx := 0;
    var k := 0;
    while k < |counts|
      invariant 0 <= k <= |counts|
      invariant idx == Sum(counts[..k])
      invariant railsData == chunks[..k]
    {
      var count := counts[k];
      SplitSnoc(data, counts, k);
      railsData := railsData + [data[idx..idx + count]];
      idx := idx + count;
      k := k + 1;
    }
    assert chunks[..k] == chunks;
  }

  /** The reconstruction loop: for each rail `r` of the walk, append
      `rails_data[r][rail_indices[r]]` and advance that cursor. Every read is in
      bounds, and afterwards every cursor stands at the end of its slice. */
  method Reconstruct<T>(railsData: seq<seq<T>>, pattern: seq<int>, rails: nat)
    returns (decrypted: seq<T>, railIndices: seq<int>)
    requires ChunksFit(railsData, pattern, rails)
    ensures decrypted == Replay(railsData, pattern)
    ensures |railIndices| == rails
    ensures forall r :: 0 <= r < rails ==> railIndices[r] == |railsData[r]|
  {
    railIndices := seq(rails, _ => 0);
    decrypted := [];
    var i := 0;
    while i < |pattern|
      invariant 0 <= i <= |pattern|
      invariant |railIndices| == rails
      invariant forall r :: 0 <= r < rails ==> railIndices[r] == Count(pattern[..i], r)
      invariant forall r :: 0 <= r < rails ==> Count(pattern[..i], r) <= |railsData[r]|
      invariant decrypted == Replay(railsData, pattern[..i])
    {
      var r := pattern[i];
      ReconstructStep(railsData, pattern, rails, i, decrypted, railIndices);
      decrypted := decrypted + [railsData[r][railIndices[r]]];
      railIndices := railIndices[r := railIndices[r] + 1];
      i := i + 1;
    }
    assert pattern[..i] == pattern;
  }

  /** One turn of the reconstruction loop keeps its invariant: the cursor read
      is in bounds, the cursors advance to the counts of a prefix one longer,
      and the output grows to the replay of that prefix. */
  lemma ReconstructStep<T>(railsData: seq<seq<T>>, pattern: seq<int>, rails: nat, i: nat,
                           decrypted: seq<T>, railIndices: seq<int>)
    requires ChunksFit(railsData, pattern, rails) && i < |pattern|
    requires |railIndices| == rails
    requires forall r :: 0 <= r < rails ==> railIndices[r] == Count(pattern[..i], r)
    requires forall r :: 0 <= r < rails ==> Count(pattern[..i], r) <= |railsData[r]|
    requires decrypted == Replay(railsData, pattern[..i])
    ensures 0 <= railIndices[pattern[i]] < |railsData[pattern[i]]|
    ensures forall r :: 0 <= r < rails ==>
      Count(pattern[..i + 1], r) == railIndices[r] + (if r == pattern[i] then 1 else 0)
    ensures forall r :: 0 <= r < rails ==> Count(pattern[..i + 1], r) <= |railsData[r]|
    ensures decrypted + [railsData[pattern[i]][railIndices[pattern[i]]]]
         == Replay(railsData, pattern[..i + 1])
  {
    ReplaySnoc(railsData, pattern, rails, i);
    CountPrefixStepAll(pattern, i);
  }

  /** `rail_fence_decrypt`: pattern, per-rail counts, slices, reconstruction. */
  method RailFenceDecrypt<T>(data: seq<T>, rails: int) returns (out: seq<T>)
    requires rails >= 2
    ensures out == Decrypt(data, rails)
  {
    var n := |data|;
    var pattern := BuildPattern(n, rails);
    var railCounts := CountRails(pattern, rails);
    SplitFits(data, pattern, rails);
    var railsData := SliceRails(data, railCounts);
    var railIndices;
    out, railIndices := Reconstruct(railsData, pattern, rails);
  }
}
