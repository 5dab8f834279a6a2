/** The rail-fence transposition as pure functions over a generic sequence.
    Encryption drops each item into the rail the zig-zag walk is on and reads
    the rails out in order; decryption cuts its input into one slice per rail
    (sized by how often the walk visits that rail) and replays the walk, taking
    the next unread item of the visited rail each time. */
module RailFence {
  import opened Sequences
  import opened ZigZag

  /** Every entry of `pat` names one of `rails` rails. */
  predicate OnRails(pat: seq<int>, rails: int)
  {
    forall i :: 0 <= i < |pat| ==> 0 <= pat[i] < rails
  }

  /** The rails after bucketing `data` by `pat`: item `i` is appended to rail
      `pat[i]`, in input order (the `fence[rail].append(item)` loop). */
  function Fence<T>(data: seq<T>, pat: seq<int>, rails: nat): (fence: seq<seq<T>>)
    requires |data| == |pat| && OnRails(pat, rails)
    ensures |fence| == rails
    decreases |data|
  {
    if |data| == 0 then seq(rails, _ => [])
    else
      var n := |data| - 1;
      var before := Fence(data[..n], pat[..n], rails);
      before[pat[n] := before[pat[n]] + [data[n]]]
  }

  /** Bucketing one more item appends it to its rail and touches no other. */
  lemma FenceSnoc<T>(data: seq<T>, pat: seq<int>, rails: nat, i: nat)
    requires |data| == |pat| && OnRails(pat, rails) && i < |data|
    ensures Fence(data[..i + 1], pat[..i + 1], rails)
         == Fence(data[..i], pat[..i], rails)[pat[i] := Fence(data[..i], pat[..i], rails)[pat[i]] + [data[i]]]
  {
    assert data[..i + 1][..i] == data[..i];
    assert pat[..i + 1][..i] == pat[..i];
  }

  /** Reference reading of one rail: the items of `data` whose walk position
      is on rail `r`, in input order, filtered front to back. */
  function OnRail<T>(data: seq<T>, pat: seq<int>, r: int): (items: seq<T>)
    requires |data| == |pat|
    ensures |items| <= |data|
    decreases |data|
  {
    if |data| == 0 then []
    else (if pat[0] == r then [data[0]] else []) + OnRail(data[1..], pat[1..], r)
  }

  /** Filtering a sequence one item longer appends that item exactly when it
      is on the rail. */
  lemma {:induction false} OnRailSnoc<T>(data: seq<T>, pat: seq<int>, r: int, n: nat)
    requires |data| == |pat| == n + 1
    ensures OnRail(data, pat, r)
         == OnRail(data[..n], pat[..n], r) + (if pat[n] == r then [data[n]] else [])
    decreases n
  {
    if n > 0 {
      var head := if pat[0] == r then [data[0]] else [];
      var last := if pat[n] == r then [data[n]] else [];
      OnRailSnoc(data[1..], pat[1..], r, n - 1);
      assert data[1..][..n - 1] == data[..n][1..];
      assert pat[1..][..n - 1] == pat[..n][1..];
      var middle := OnRail(data[..n][1..], pat[..n][1..], r);
      assert OnRail(data[..n], pat[..n], r) == head + middle;
      AppendAssoc(head, middle, last);
    } else {
      assert data[..n] == [] && pat[..n] == [];
    }
  }

  /** Each bucket of the fence is exactly the items on its rail, in their
      original order. */
  lemma {:induction false} FenceIsOnRail<T>(data: seq<T>, pat: seq<int>, rails: nat, r: nat)
    requires |data| == |pat| && OnRails(pat, rails) && r < rails
    ensures Fence(data, pat, rails)[r] == OnRail(data, pat, r)
    decreases |data|
  {
    if |data| > 0 {
      var n := |data| - 1;
      FenceIsOnRail(data[..n], pat[..n], rails, r);
      OnRailSnoc(data, pat, r, n);
    }
  }

  /** Reference rails: the filtered items of rails `0 .. k - 1`, in rail order. */
  function ByRail<T>(data: seq<T>, pat: seq<int>, k: nat): (rs: seq<seq<T>>)
    requires |data| == |pat|
    ensures |rs| == k
    ensures forall r :: 0 <= r < k ==> rs[r] == OnRail(data, pat, r)
    decreases k
  {
    if k == 0 then [] else ByRail(data, pat, k - 1) + [OnRail(data, pat, k - 1)]
  }

  /** How many positions of the walk fall on each rail. */
  function Counts(pat: seq<int>, rails: nat): (counts: seq<nat>)
    ensures |counts| == rails
  {
    seq(rails, r => Count(pat, r))
  }

  /** Where the slice of rail `r` starts in the ciphertext. */
  function Offset(pat: seq<int>, rails: nat, r: nat): nat
    requires r <= rails
  {
    Sum(Counts(pat, rails)[..r])
  }

  /** Where encryption moves the item at position `i`: after every item of the
      lower rails, and after the items of its own rail that come before it. */
  function Position(pat: seq<int>, rails: nat, i: nat): nat
    requires OnRails(pat, rails) && i < |pat|
  {
    Offset(pat, rails, pat[i]) + Count(pat[..i], pat[i])
  }

  /** `rail_fence_encrypt`. */
  function Encrypt<T>(data: seq<T>, rails: int): (cipher: seq<T>)
    requires rails >= 2
    ensures |cipher| == |data|
    ensures multiset(cipher) == multiset(data)
  {
    var pat := Pattern(|data|, rails);
    FenceKeepsItems(data, pat, rails);
    FenceLengths(data, pat, rails);
    SumCounts(pat, rails);
    Flatten(Fence(data, pat, rails))
  }

  /** Reads the walk `pat` back out of per-rail slices: position `i` takes the
      next unread item of slice `pat[i]`, the cursor of a rail being the number
      of earlier visits to it. The requires is the in-bounds condition of the
      source's `rails_data[r][rail_indices[r]]`. */
  function Replay<T>(chunks: seq<seq<T>>, pat: seq<int>): (out: seq<T>)
    requires OnRails(pat, |chunks|)
    requires forall r :: 0 <= r < |chunks| ==> Count(pat, r) <= |chunks[r]|
    ensures |out| == |pat|
    decreases |pat|
  {
    if |pat| == 0 then []
    else
      var n := |pat| - 1;
      CountDropLast(pat);
      Replay(chunks, pat[..n]) + [chunks[pat[n]][Count(pat[..n], pat[n])]]
  }

  /** The slices cover the walk: one per rail, each holding as many items as
      the walk visits that rail. */
  predicate ChunksFit<T>(chunks: seq<seq<T>>, pat: seq<int>, rails: nat)
  {
    && |chunks| == rails
    && OnRails(pat, rails)
    && forall r :: 0 <= r < rails ==> |chunks[r]| == Count(pat, r)
  }

  /** Cutting an input as long as the walk by the per-rail counts gives
      slices that fit the walk. */
  lemma SplitFits<T>(data: seq<T>, pat: seq<int>, rails: nat)
    requires OnRails(pat, rails) && |data| == |pat|
    ensures Sum(Counts(pat, rails)) == |data|
    ensures ChunksFit(Split(data, Counts(pat, rails)), pat, rails)
  {
    SumCounts(pat, rails);
    var chunks := Split(data, Counts(pat, rails));
    assert forall r :: 0 <= r < rails ==> |chunks[r]| == Lengths(chunks)[r];
  }

  /** Replaying one more position of the walk reads the next unread item of
      that position's rail, which exists, and leaves every rail's cursor within
      its slice. */
  lemma ReplaySnoc<T>(chunks: seq<seq<T>>, pat: seq<int>, rails: nat, i: nat)
    requires ChunksFit(chunks, pat, rails) && i < |pat|
    ensures forall r :: 0 <= r < rails ==> Count(pat[..i], r) <= |chunks[r]|
    ensures forall r :: 0 <= r < rails ==> Count(pat[..i + 1], r) <= |chunks[r]|
    ensures Count(pat[..i], pat[i]) < |chunks[pat[i]]|
    ensures Replay(chunks, pat[..i + 1])
         == Replay(chunks, pat[..i]) + [chunks[pat[i]][Count(pat[..i], pat[i])]]
  {
    CountBefore(pat, i);
    CountPrefixAtMost(pat, i);
    CountPrefixAtMost(pat, i + 1);
    assert pat[..i + 1][..i] == pat[..i];
  }

  /** `rail_fence_decrypt`. */
  function Decrypt<T>(data: seq<T>, rails: int): (plain: seq<T>)
    requires rails >= 2
    ensures |plain| == |data|
  {
    var pat := Pattern(|data|, rails);
    SplitFits(data, pat, rails);
    Replay(Split(data, Counts(pat, rails)), pat)
  }

  // ----- per-rail counts -----

  /** The per-rail counts add up to the length of the walk. */
  lemma {:induction false} SumCounts(pat: seq<int>, rails: nat)
    requires OnRails(pat, rails)
    ensures Sum(Counts(pat, rails)) == |pat|
    decreases |pat|
  {
    if |pat| == 0 {
      assert Counts(pat, rails) == seq(rails, _ => 0);
      SumZeros(rails);
    } else {
      var n := |pat| - 1;
      var before := Counts(pat[..n], rails);
      SumCounts(pat[..n], rails);
      assert Counts(pat, rails) == before[pat[n] := before[pat[n]] + 1];
      SumIncrement(before, pat[n]);
    }
  }

  lemma {:induction false} SumZeros(k: nat)
    ensures Sum(seq(k, _ => 0)) == 0
    decreases k
  {
    if k > 0 {
      assert seq(k, _ => 0)[1..] == seq(k - 1, _ => 0);
      SumZeros(k - 1);
    }
  }

  // ----- encryption -----

  /** Bucketing loses and invents nothing. */
  lemma {:induction false} FenceKeepsItems<T>(data: seq<T>, pat: seq<int>, rails: nat)
    requires |data| == |pat| && OnRails(pat, rails)
    ensures multiset(Flatten(Fence(data, pat, rails))) == multiset(data)
    decreases |data|
  {
    if |data| == 0 {
      FlattenEmpties(Fence(data, pat, rails));
    } else {
      var n := |data| - 1;
      var before := Fence(data[..n], pat[..n], rails);
      FenceKeepsItems(data[..n], pat[..n], rails);
      var fence := Fence(data, pat, rails);
      assert fence == before[pat[n] := before[pat[n]] + [data[n]]];
      FlattenAppendAt(before, pat[n], data[n]);
      MultisetSnoc(data, n);
      assert multiset(Flatten(fence)) == multiset(data[..n]) + multiset{data[n]};
    }
  }

  /** Item `i` lands in its rail's bucket at the index given by the number of
      earlier items on the same rail. */
  lemma {:induction false} FenceAt<T>(data: seq<T>, pat: seq<int>, rails: nat, i: nat)
    requires |data| == |pat| && OnRails(pat, rails) && i < |data|
    ensures Count(pat[..i], pat[i]) < |Fence(data, pat, rails)[pat[i]]|
    ensures Fence(data, pat, rails)[pat[i]][Count(pat[..i], pat[i])] == data[i]
    decreases |data|
  {
    CountBefore(pat, i);
    FenceSizes(data, pat, rails);
    var n := |data| - 1;
    FenceSizes(data[..n], pat[..n], rails);
    if i < n {
      FenceAt(data[..n], pat[..n], rails, i);
      assert pat[..n][..i] == pat[..i];
    } else {
      assert pat[..n] == pat[..i];
    }
  }

  /** Each bucket holds as many items as the walk visits its rail. */
  lemma {:induction false} FenceSizes<T>(data: seq<T>, pat: seq<int>, rails: nat)
    requires |data| == |pat| && OnRails(pat, rails)
    ensures forall r :: 0 <= r < rails ==> |Fence(data, pat, rails)[r]| == Count(pat, r)
    decreases |data|
  {
    if |data| > 0 {
      var n := |data| - 1;
      FenceSizes(data[..n], pat[..n], rails);
    }
  }

  /** The buckets have the sizes the decryption computes by counting. */
  lemma FenceLengths<T>(data: seq<T>, pat: seq<int>, rails: nat)
    requires |data| == |pat| && OnRails(pat, rails)
    ensures Lengths(Fence(data, pat, rails)) == Counts(pat, rails)
  {
    FenceSizes(data, pat, rails);
  }

  /** Encryption is the textbook reading: the items on rail 0 in input order,
      then those on rail 1, and so on down to the last rail. */
  lemma EncryptByRail<T>(data: seq<T>, rails: int)
    requires rails >= 2
    ensures Encrypt(data, rails) == Flatten(ByRail(data, Pattern(|data|, rails), rails))
  {
    var pat := Pattern(|data|, rails);
    var fence := Fence(data, pat, rails);
    forall r | 0 <= r < rails
      ensures fence[r] == OnRail(data, pat, r)
    {
      FenceIsOnRail(data, pat, rails, r);
    }
    assert fence == ByRail(data, pat, rails);
  }

  /** Bucketing then reading the rails out puts item `i` at
      `Position(pat, rails, i)`. */
  lemma FencePlaces<T>(data: seq<T>, pat: seq<int>, rails: nat, i: nat)
    requires |data| == |pat| && OnRails(pat, rails) && i < |data|
    ensures Position(pat, rails, i) < |Flatten(Fence(data, pat, rails))|
    ensures Flatten(Fence(data, pat, rails))[Position(pat, rails, i)] == data[i]
  {
    var fence := Fence(data, pat, rails);
    var r, k := pat[i], Count(pat[..i], pat[i]);
    FenceAt(data, pat, rails, i);
    FenceLengths(data, pat, rails);
    var pos := Position(pat, rails, i);
    assert pos == Sum(Counts(pat, rails)[..r]) + k;
    FlattenAtOffset(fence, Counts(pat, rails), r, k, pos);
    assert fence[r][k] == data[i];
  }

  /** Encryption puts item `i` at `Position(pat, rails, i)`. */
  lemma EncryptPlaces<T>(data: seq<T>, rails: int, i: nat)
    requires rails >= 2 && i < |data|
    ensures Position(Pattern(|data|, rails), rails, i) < |data|
    ensures Encrypt(data, rails)[Position(Pattern(|data|, rails), rails, i)] == data[i]
  {
    var pat := Pattern(|data|, rails);
    FencePlaces(data, pat, rails, i);
    assert Encrypt(data, rails) == Flatten(Fence(data, pat, rails));
  }

  /** Two items on the same rail keep their relative order in the ciphertext. */
  lemma EncryptKeepsRailOrder(n: nat, rails: int, i: nat, j: nat)
    requires rails >= 2 && i < j < n
    requires Pattern(n, rails)[i] == Pattern(n, rails)[j]
    ensures Position(Pattern(n, rails), rails, i) < Position(Pattern(n, rails), rails, j)
  {
    CountRankIncreasing(Pattern(n, rails), i, j);
  }

  // ----- decryption -----

  /** Position `i` of a replay is read from rail `pat[i]` at that rail's
      cursor, and that read is in bounds. */
  lemma {:induction false} ReplayAt<T>(chunks: seq<seq<T>>, pat: seq<int>, i: nat)
    requires OnRails(pat, |chunks|)
    requires forall r :: 0 <= r < |chunks| ==> Count(pat, r) <= |chunks[r]|
    requires i < |pat|
    ensures Count(pat[..i], pat[i]) < |chunks[pat[i]]|
    ensures Replay(chunks, pat)[i] == chunks[pat[i]][Count(pat[..i], pat[i])]
    decreases |pat|
  {
    CountBefore(pat, i);
    var n := |pat| - 1;
    if i < n {
      ReplayAt(chunks, pat[..n], i);
      assert pat[..n][..i] == pat[..i];
    } else {
      assert pat[..n] == pat[..i];
    }
  }

  /** Replaying the walk over the slices of `data` reads item `i` from
      `Position(pat, rails, i)`. */
  lemma ReplayReads<T>(data: seq<T>, pat: seq<int>, rails: nat, i: nat)
    requires OnRails(pat, rails) && |data| == |pat| && i < |data|
    ensures Position(pat, rails, i) < |data|
    ensures Sum(Counts(pat, rails)) == |data|
    ensures ChunksFit(Split(data, Counts(pat, rails)), pat, rails)
    ensures Replay(Split(data, Counts(pat, rails)), pat)[i] == data[Position(pat, rails, i)]
  {
    var counts := Counts(pat, rails);
    SumCounts(pat, rails);
    var chunks := Split(data, counts);
    SplitFits(data, pat, rails);
    var r, k := pat[i], Count(pat[..i], pat[i]);
    ReplayAt(chunks, pat, i);
    var pos := Position(pat, rails, i);
    assert pos == Sum(counts[..r]) + k;
    SplitAt(data, counts, r, k, pos);
    assert Replay(chunks, pat)[i] == data[pos];
  }

  /** Decryption reads plaintext item `i` from `Position(pat, rails, i)` of its
      input: the exact inverse placement of `EncryptPlaces`. */
  lemma DecryptReads<T>(data: seq<T>, rails: int, i: nat)
    requires rails >= 2 && i < |data|
    ensures Position(Pattern(|data|, rails), rails, i) < |data|
    ensures Decrypt(data, rails)[i] == data[Position(Pattern(|data|, rails), rails, i)]
  {
    ReplayReads(data, Pattern(|data|, rails), rails, i);
  }

  /** Bucketing a replay by the same walk recovers the slices, up to the
      number of items the walk reads from each. */
  lemma {:induction false} FenceOfReplay<T>(chunks: seq<seq<T>>, pat: seq<int>)
    requires OnRails(pat, |chunks|)
    requires forall r :: 0 <= r < |chunks| ==> Count(pat, r) <= |chunks[r]|
    ensures forall r :: 0 <= r < |chunks| ==>
      Fence(Replay(chunks, pat), pat, |chunks|)[r] == chunks[r][..Count(pat, r)]
    decreases |pat|
  {
    var out := Replay(chunks, pat);
    var fence := Fence(out, pat, |chunks|);
    if |pat| > 0 {
      var n := |pat| - 1;
      var p := pat[n];
      CountDropLast(pat);
      var prev := Replay(chunks, pat[..n]);
      var item := chunks[p][Count(pat[..n], p)];
      FenceOfReplay(chunks, pat[..n]);
      assert out == prev + [item];
      assert out[..n] == prev;
      var before := Fence(prev, pat[..n], |chunks|);
      assert fence == before[p := before[p] + [item]];
      forall r | 0 <= r < |chunks|
        ensures fence[r] == chunks[r][..Count(pat, r)]
      {
        if r == p {
          TakeSnoc(chunks[r], Count(pat[..n], r));
        }
      }
    }
  }

  // ----- round trips -----

  /** Decryption undoes encryption. */
  lemma DecryptEncrypt<T>(data: seq<T>, rails: int)
    requires rails >= 2
    ensures Decrypt(Encrypt(data, rails), rails) == data
  {
    var cipher := Encrypt(data, rails);
    forall i | 0 <= i < |data|
      ensures Decrypt(cipher, rails)[i] == data[i]
    {
      EncryptPlaces(data, rails, i);
      DecryptReads(cipher, rails, i);
    }
  }

  /** Bucketing the replay of the slices of `data` by the same walk gives the
      slices back, so reading them out gives `data` back. */
  lemma FenceOfSplitReplay<T>(data: seq<T>, pat: seq<int>, rails: nat)
    requires OnRails(pat, rails) && |data| == |pat|
    ensures Sum(Counts(pat, rails)) == |data|
    ensures ChunksFit(Split(data, Counts(pat, rails)), pat, rails)
    ensures |Replay(Split(data, Counts(pat, rails)), pat)| == |pat|
    ensures Flatten(Fence(Replay(Split(data, Counts(pat, rails)), pat), pat, rails)) == data
  {
    var counts := Counts(pat, rails);
    SplitFits(data, pat, rails);
    var chunks := Split(data, counts);
    FenceOfReplay(chunks, pat);
    var fence := Fence(Replay(chunks, pat), pat, rails);
    forall r | 0 <= r < rails
      ensures fence[r] == chunks[r]
    {
      assert chunks[r][..Count(pat, r)] == chunks[r];
    }
    assert fence == chunks;
    SplitCovers(data, counts);
  }

  /** Encryption undoes decryption, so both are bijections. */
  lemma EncryptDecrypt<T>(data: seq<T>, rails: int)
    requires rails >= 2
    ensures Encrypt(Decrypt(data, rails), rails) == data
  {
    var pat := Pattern(|data|, rails);
    FenceOfSplitReplay(data, pat, rails);
    var plain := Replay(Split(data, Counts(pat, rails)), pat);
    assert Decrypt(data, rails) == plain;
    assert Encrypt(plain, rails) == Flatten(Fence(plain, pat, rails));
  }

  /** Decryption is a permutation too, whatever the rail count used to
      produce its input. */
  lemma DecryptKeepsItems<T>(data: seq<T>, rails: int)
    requires rails >= 2
    ensures multiset(Decrypt(data, rails)) == multiset(data)
  {
    EncryptDecrypt(data, rails);
  }

  // ----- short inputs -----

  /** With no more items than rails, each item sits alone on its own rail. */
  lemma {:induction false} FenceDistinct<T>(data: seq<T>, pat: seq<int>, rails: nat)
    requires |data| == |pat| <= rails
    requires forall i :: 0 <= i < |pat| ==> pat[i] == i
    ensures forall r :: 0 <= r < rails ==>
      Fence(data, pat, rails)[r] == if r < |data| then [data[r]] else []
    decreases |data|
  {
    if |data| > 0 {
      var n := |data| - 1;
      FenceDistinct(data[..n], pat[..n], rails);
    }
  }

  /** Flattening singletons holding the items of `data`, then empties,
      gives `data`. */
  lemma {:induction false} FlattenSingletons<T>(fs: seq<seq<T>>, data: seq<T>)
    requires |data| <= |fs|
    requires forall r :: 0 <= r < |fs| ==> fs[r] == if r < |data| then [data[r]] else []
    ensures Flatten(fs) == data
    decreases |fs|
  {
    if |data| == 0 {
      FlattenEmpties(fs);
    } else {
      FlattenSingletons(fs[1..], data[1..]);
    }
  }

  /** When the input is no longer than the rail count, encryption and
      decryption both return it unchanged. */
  lemma ShortIsIdentity<T>(data: seq<T>, rails: int)
    requires rails >= 2 && |data| <= rails
    ensures Encrypt(data, rails) == data
    ensures Decrypt(data, rails) == data
  {
    var pat := Pattern(|data|, rails);
    ShortPattern(|data|, rails);
    FenceDistinct(data, pat, rails);
    FlattenSingletons(Fence(data, pat, rails), data);
    DecryptEncrypt(data, rails);
  }
}
