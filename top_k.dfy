/**
 * `top_k_indices` (src/main.rs): a buffer of `K` indices into `keys`,
 * updated whenever a key is at least the key at the buffer's head.
 * Keys are modelled as integers.
 */
module TopK {

  /**
   * The buffer once keys `1 .. m - 1` have been looked at: index `m - 1`
   * goes to the front, pushing the last entry out, when its key is at
   * least the key of the current front entry.
   */
  function Running(keys: seq<int>, K: nat, m: nat): (r: seq<nat>)
    requires 0 < K && m <= |keys|
    ensures |r| == K
    ensures forall k :: 0 <= k < K ==> r[k] == 0 || r[k] < m
  {
    if m <= 1 then seq(K, _ => 0)
    else
      var r := Running(keys, K, m - 1);
      if keys[r[0]] <= keys[m - 1] then [m - 1] + r[..K - 1] else r
  }

  /** What `top_k_indices::<K>(keys)` returns. */
  function TopK(keys: seq<int>, K: nat): seq<nat>
    requires 0 < K
  {
    Running(keys, K, |keys|)
  }

  function Min(a: nat, b: nat): nat {
    if a <= b then a else b
  }

  /**
   * `top_k_indices`: a zeroed buffer; for every later index whose key is at
   * least the key at the front, `copy_within(0..K - 1, 1)` shifts the buffer
   * right by one and the index is written at the front.
   */
  method TopKIndices(keys: seq<int>, K: nat) returns (idx: seq<nat>)
    requires 0 < K
    ensures idx == TopK(keys, K)
  {
    var buffer := new nat[K](_ => 0);
    var i := 1;
    while i < |keys|
      invariant 1 <= i && (|keys| == 0 || i <= |keys|)
      invariant buffer[..] == Running(keys, K, Min(i, |keys|))
    {
      RunningStep(keys, K, i);
      if keys[buffer[0]] <= keys[i] {
        PushFront(buffer, i);
      }
      i := i + 1;
    }
    idx := buffer[..];
  }

  /** `idx.copy_within(0..K - 1, 1); idx[0] = i;`: shift right by one, dropping the last entry, and write `i` at the front. */
  method PushFront(buffer: array<nat>, i: nat)
    requires 0 < buffer.Length
    modifies buffer
    ensures buffer[..] == [i] + old(buffer[..])[..buffer.Length - 1]
  {
    ghost var before := buffer[..];
    forall k | 1 <= k < buffer.Length {
      buffer[k] := buffer[k - 1];
    }
    buffer[0] := i;
    assert forall k :: 0 <= k < buffer.Length ==> buffer[k] == ([i] + before[..buffer.Length - 1])[k];
  }

  /** One step of the loop: the buffer after index `i` from the buffer before it. */
  lemma RunningStep(keys: seq<int>, K: nat, i: nat)
    requires 0 < K && 1 <= i < |keys|
    ensures Min(i, |keys|) == i && Min(i + 1, |keys|) == i + 1
    ensures Running(keys, K, i)[0] < |keys|
    ensures Running(keys, K, i + 1)
      == if keys[Running(keys, K, i)[0]] <= keys[i] then [i] + Running(keys, K, i)[..K - 1] else Running(keys, K, i)
  {
  }

  /** The front entry holds a maximal key among `keys[..m]`, and no later index ties it. */
  lemma {:induction false} RunningFront(keys: seq<int>, K: nat, m: nat)
    requires 0 < K && 0 < m <= |keys|
    ensures Running(keys, K, m)[0] < m
    ensures forall i :: 0 <= i < m ==> keys[i] <= keys[Running(keys, K, m)[0]]
    ensures forall i :: Running(keys, K, m)[0] < i < m ==> keys[i] < keys[Running(keys, K, m)[0]]
  {
    if m > 1 {
      RunningFront(keys, K, m - 1);
    }
  }

  /** For non-empty keys, `idx[0]` is the last index of a maximal key. */
  lemma TopKFront(keys: seq<int>, K: nat)
    requires 0 < K && 0 < |keys|
    ensures TopK(keys, K)[0] < |keys|
    ensures forall i :: 0 <= i < |keys| ==> keys[i] <= keys[TopK(keys, K)[0]]
    ensures forall i :: TopK(keys, K)[0] < i < |keys| ==> keys[i] < keys[TopK(keys, K)[0]]
  {
    RunningFront(keys, K, |keys|);
  }

  /** Keys along the buffer never increase, and so every entry is a valid index. */
  lemma {:induction false} RunningOrdered(keys: seq<int>, K: nat, m: nat)
    requires 0 < K && 0 < m <= |keys|
    ensures forall k :: 0 <= k < K ==> Running(keys, K, m)[k] < m
    ensures forall k :: 0 <= k < K - 1 ==> keys[Running(keys, K, m)[k + 1]] <= keys[Running(keys, K, m)[k]]
  {
    if m > 1 {
      RunningOrdered(keys, K, m - 1);
      RunningFront(keys, K, m - 1);
    }
  }

  /** For non-empty keys, every entry of `idx` is an index of `keys`, and keys along `idx` never increase. */
  lemma TopKOrdered(keys: seq<int>, K: nat)
    requires 0 < K && 0 < |keys|
    ensures forall k :: 0 <= k < K ==> TopK(keys, K)[k] < |keys|
    ensures forall k :: 0 <= k < K - 1 ==> keys[TopK(keys, K)[k + 1]] <= keys[TopK(keys, K)[k]]
  {
    RunningOrdered(keys, K, |keys|);
  }

  /**
   * The buffer keeps only the successive record holders: for keys
   * `[5, 1, 2, 3]` the front key is never beaten, and both entries stay 0,
   * although index 3 holds the second largest key.
   */
  lemma RecordHoldersOnly()
    ensures TopK([5, 1, 2, 3], 2) == [0, 0]
  {
    var keys := [5, 1, 2, 3];
    assert Running(keys, 2, 2) == [0, 0];
    assert Running(keys, 2, 3) == [0, 0];
  }

  // The top-K selection the function's name and its caller ("top choices")
  // ask for: the indices of the K largest keys, largest first.

  /** Keys along `r` never increase. */
  predicate Descending(keys: seq<int>, r: seq<nat>) {
    forall a, b :: 0 <= a < b < |r| ==> r[a] < |keys| && r[b] < |keys| && keys[r[b]] <= keys[r[a]]
  }

  /** `r` lists distinct indices below `m`. */
  predicate DistinctBelow(r: seq<nat>, m: nat) {
    (forall a :: 0 <= a < |r| ==> r[a] < m)
    && forall a, b :: 0 <= a < b < |r| ==> r[a] != r[b]
  }

  /** Entries of `r` with equal keys appear in increasing index order. */
  predicate TiesByIndex(keys: seq<int>, r: seq<nat>) {
    forall a, b :: 0 <= a < b < |r| && r[a] < |keys| && r[b] < |keys| && keys[r[a]] == keys[r[b]] ==> r[a] < r[b]
  }

  /** No key of `r` lies below the key of `i`, and an entry with `i`'s key has a lower index. */
  predicate Dominates(keys: seq<int>, i: nat, r: seq<nat>)
    requires i < |keys|
  {
    forall a :: 0 <= a < |r| ==> r[a] < |keys| && keys[i] <= keys[r[a]] && (keys[r[a]] == keys[i] ==> r[a] < i)
  }

  /**
   * `r` is a top-K list of `keys[..m]`: distinct indices, keys largest
   * first, as many as there are (up to `K`), and no index left out has a
   * key above any index kept. Ties go to the lower index, as a stable
   * descending sort would order them: equal keys appear in index order, and
   * an index left out has no lower index than a kept entry with its key.
   */
  predicate IsTopK(keys: seq<int>, K: nat, m: nat, r: seq<nat>)
    requires m <= |keys|
  {
    DistinctBelow(r, m) && Descending(keys, r) && TiesByIndex(keys, r) && |r| == Min(m, K)
    && forall i :: 0 <= i < m && i !in r ==> Dominates(keys, i, r)
  }

  /** Index `i` inserted before the first entry whose key is smaller. */
  function Insert(keys: seq<int>, r: seq<nat>, i: nat): (s: seq<nat>)
    requires i < |keys| && forall a :: 0 <= a < |r| ==> r[a] < |keys|
    ensures |s| == |r| + 1
    ensures forall a :: 0 <= a < |s| ==> s[a] < |keys|
  {
    if |r| == 0 then [i]
    else if keys[r[0]] < keys[i] then [i] + r
    else [r[0]] + Insert(keys, r[1..], i)
  }

  /** The entries after inserting `i` are `i` and the old entries. */
  lemma {:induction false} InsertEntries(keys: seq<int>, r: seq<nat>, i: nat)
    requires i < |keys| && forall a :: 0 <= a < |r| ==> r[a] < |keys|
    ensures forall x :: x in Insert(keys, r, i) <==> x == i || x in r
    ensures forall a :: 0 <= a < |r| + 1 ==> Insert(keys, r, i)[a] == i || Insert(keys, r, i)[a] in r
  {
    if |r| > 0 && keys[i] <= keys[r[0]] {
      InsertEntries(keys, r[1..], i);
      assert r == [r[0]] + r[1..];
    }
  }

  lemma {:induction false} InsertDescending(keys: seq<int>, r: seq<nat>, i: nat)
    requires i < |keys| && forall a :: 0 <= a < |r| ==> r[a] < |keys|
    requires Descending(keys, r)
    ensures Descending(keys, Insert(keys, r, i))
  {
    if |r| > 0 && keys[i] <= keys[r[0]] {
      var q := r[1..];
      assert Descending(keys, q);
      InsertDescending(keys, q, i);
      InsertEntries(keys, q, i);
      var t := Insert(keys, q, i);
      forall b | 0 <= b < |t|
        ensures keys[t[b]] <= keys[r[0]]
      {
        if t[b] != i {
          var c :| 0 <= c < |q| && q[c] == t[b];
          assert q[c] == r[c + 1];
        }
      }
      AppendDescending(keys, r[0], t);
    }
  }

  /** Inserting an index above all entries keeps equal keys in index order. */
  lemma {:induction false} InsertTiesByIndex(keys: seq<int>, r: seq<nat>, i: nat)
    requires i < |keys| && forall a :: 0 <= a < |r| ==> r[a] < i
    requires Descending(keys, r) && TiesByIndex(keys, r)
    ensures TiesByIndex(keys, Insert(keys, r, i))
  {
    if |r| > 0 {
      if keys[r[0]] < keys[i] {
        forall a, b | 0 <= a < b < |r| + 1
          ensures ([i] + r)[a] < |keys| && ([i] + r)[b] < |keys| && keys[([i] + r)[a]] == keys[([i] + r)[b]] ==> ([i] + r)[a] < ([i] + r)[b]
        {
          assert ([i] + r)[b] == r[b - 1];
          if a > 0 {
            assert ([i] + r)[a] == r[a - 1];
          } else if b > 1 {
            assert keys[r[b - 1]] <= keys[r[0]];
          }
        }
      } else {
        var q := r[1..];
        InsertTiesByIndex(keys, q, i);
        InsertEntries(keys, q, i);
        var t := Insert(keys, q, i);
        forall b | 0 <= b < |t|
          ensures t[b] < |keys| && keys[r[0]] == keys[t[b]] ==> r[0] < t[b]
        {
          if t[b] != i {
            var c :| 0 <= c < |q| && q[c] == t[b];
            assert q[c] == r[c + 1];
          }
        }
        PrependTiesByIndex(keys, r[0], t);
      }
    }
  }

  /** An entry with a lower index than every later entry of equal key may go before them. */
  lemma PrependTiesByIndex(keys: seq<int>, x: nat, t: seq<nat>)
    requires x < |keys| && TiesByIndex(keys, t)
    requires forall b :: 0 <= b < |t| ==> t[b] < |keys| && keys[x] == keys[t[b]] ==> x < t[b]
    ensures TiesByIndex(keys, [x] + t)
  {
    forall a, b | 0 <= a < b < |t| + 1
      ensures ([x] + t)[a] < |keys| && ([x] + t)[b] < |keys| && keys[([x] + t)[a]] == keys[([x] + t)[b]] ==> ([x] + t)[a] < ([x] + t)[b]
    {
      if a > 0 {
        assert ([x] + t)[a] == t[a - 1];
      }
      assert ([x] + t)[b] == t[b - 1];
    }
  }

  /** An entry whose key is at least every key of a descending list may go before it. */
  lemma AppendDescending(keys: seq<int>, x: nat, t: seq<nat>)
    requires x < |keys| && Descending(keys, t)
    requires forall b :: 0 <= b < |t| ==> t[b] < |keys| && keys[t[b]] <= keys[x]
    ensures Descending(keys, [x] + t)
  {
    forall a, b | 0 <= a < b < |t| + 1
      ensures keys[([x] + t)[b]] <= keys[([x] + t)[a]]
    {
      if a > 0 {
        assert ([x] + t)[a] == t[a - 1];
      }
      assert ([x] + t)[b] == t[b - 1];
    }
  }

  lemma {:induction false} InsertDistinct(keys: seq<int>, r: seq<nat>, i: nat, m: nat)
    requires i < |keys| && forall a :: 0 <= a < |r| ==> r[a] < |keys|
    requires DistinctBelow(r, m) && i == m
    ensures DistinctBelow(Insert(keys, r, i), m + 1)
  {
    if |r| > 0 && keys[i] <= keys[r[0]] {
      var q := r[1..];
      InsertDistinct(keys, q, i, m);
      InsertEntries(keys, q, i);
      var t := Insert(keys, q, i);
      forall b | 0 <= b < |t|
        ensures t[b] != r[0]
      {
        if t[b] != i {
          var c :| 0 <= c < |q| && q[c] == t[b];
          assert q[c] == r[c + 1];
        }
      }
      assert Insert(keys, r, i) == [r[0]] + t;
    }
  }

  /** The corrected buffer after keys `0 .. m - 1`: each index inserted in order of key, keeping `K`. */
  function Ranked(keys: seq<int>, K: nat, m: nat): (r: seq<nat>)
    requires m <= |keys|
    ensures forall a :: 0 <= a < |r| ==> r[a] < m
  {
    if m == 0 then []
    else
      var r := Ranked(keys, K, m - 1);
      var s := Insert(keys, r, m - 1);
      assert forall a :: 0 <= a < |s| ==> s[a] < m by {
        InsertEntries(keys, r, m - 1);
        forall a | 0 <= a < |s|
          ensures s[a] < m
        {
          if s[a] != m - 1 {
            var b :| 0 <= b < |r| && r[b] == s[a];
          }
        }
      }
      if |s| <= K then s else s[..K]
  }

  /** The corrected `top_k_indices`. */
  function TopKRanked(keys: seq<int>, K: nat): seq<nat> {
    Ranked(keys, K, |keys|)
  }

  /** A member of a list that `i` dominates has a key no smaller than `i`'s. */
  lemma DominatesMember(keys: seq<int>, i: nat, r: seq<nat>, x: nat)
    requires i < |keys| && Dominates(keys, i, r) && x in r
    ensures x < |keys| && keys[i] <= keys[x] && (keys[x] == keys[i] ==> x < i)
  {
    var b :| 0 <= b < |r| && r[b] == x;
  }

  /**
   * Once the new index is in, keeping the first `K` entries of the
   * descending list drops only an entry no larger than any kept one.
   */
  lemma TruncateKeepsTopK(keys: seq<int>, K: nat, m: nat, r: seq<nat>, s: seq<nat>)
    requires 0 < m <= |keys| && IsTopK(keys, K, m - 1, r) && s == Insert(keys, r, m - 1)
    requires |s| > K
    ensures IsTopK(keys, K, m, s[..K])
  {
    InsertDescending(keys, r, m - 1);
    InsertDistinct(keys, r, m - 1, m - 1);
    InsertTiesByIndex(keys, r, m - 1);
    PrefixOrdered(keys, s, K, m);
    TruncatedDominanceAll(keys, K, m, r, s);
  }

  lemma TruncatedDominanceAll(keys: seq<int>, K: nat, m: nat, r: seq<nat>, s: seq<nat>)
    requires 0 < m <= |keys| && IsTopK(keys, K, m - 1, r) && s == Insert(keys, r, m - 1)
    requires Descending(keys, s) && TiesByIndex(keys, s) && DistinctBelow(s, m) && |s| == K + 1
    ensures forall i :: 0 <= i < m && i !in s[..K] ==> Dominates(keys, i, s[..K])
  {
    forall i | 0 <= i < m && i !in s[..K]
      ensures Dominates(keys, i, s[..K])
    {
      TruncatedDominance(keys, K, m, r, s, i);
    }
  }

  /** A prefix of an ordered list without repeats is one too. */
  lemma PrefixOrdered(keys: seq<int>, s: seq<nat>, K: nat, m: nat)
    requires K <= |s| && Descending(keys, s) && TiesByIndex(keys, s) && DistinctBelow(s, m)
    ensures Descending(keys, s[..K]) && TiesByIndex(keys, s[..K]) && DistinctBelow(s[..K], m)
  {
    var p := s[..K];
    assert forall a :: 0 <= a < K ==> p[a] == s[a];
    assert Descending(keys, p);
    assert TiesByIndex(keys, p);
    assert DistinctBelow(p, m);
  }

  /** An index left out after the truncation is dominated by every kept entry. */
  lemma TruncatedDominance(keys: seq<int>, K: nat, m: nat, r: seq<nat>, s: seq<nat>, i: nat)
    requires 0 < m <= |keys| && IsTopK(keys, K, m - 1, r) && s == Insert(keys, r, m - 1)
    requires Descending(keys, s) && TiesByIndex(keys, s) && DistinctBelow(s, m) && |s| == K + 1
    requires i < m && i !in s[..K]
    ensures Dominates(keys, i, s[..K])
  {
    InsertEntries(keys, r, m - 1);
    if i in s {
      DroppedIsLast(s, K, i);
    } else {
      assert i !in r;
      forall a | 0 <= a < K
        ensures keys[i] <= keys[s[..K][a]] && (keys[s[..K][a]] == keys[i] ==> s[..K][a] < i)
      {
        DropDominated(keys, m, r, s, i, K, a);
      }
    }
  }

  /** In a list without repeats, a member missing from the first `K` entries past which one more remains is entry `K`. */
  lemma DroppedIsLast(s: seq<nat>, K: nat, i: nat)
    requires |s| == K + 1 && (forall a, b :: 0 <= a < b < |s| ==> s[a] != s[b]) && i in s && i !in s[..K]
    ensures s[K] == i
  {
    var d :| 0 <= d < |s| && s[d] == i;
  }

  /** An index dominated by the old list is dominated by every new entry. */
  lemma DropDominated(keys: seq<int>, m: nat, r: seq<nat>, s: seq<nat>, i: nat, K: nat, a: nat)
    requires 0 < m <= |keys| && i < |keys| && |s| == K + 1 && a < K
    requires forall b :: 0 <= b < |s| ==> s[b] == m - 1 || s[b] in r
    requires Dominates(keys, i, r)
    requires Descending(keys, s) && TiesByIndex(keys, s) && DistinctBelow(s, m)
    ensures keys[i] <= keys[s[a]] && (keys[s[a]] == keys[i] ==> s[a] < i)
  {
    if s[a] == m - 1 {
      assert s[K] in r;
      DominatesMember(keys, i, r, s[K]);
      assert keys[s[K]] <= keys[s[a]];
    } else {
      DominatesMember(keys, i, r, s[a]);
    }
  }

  /** Every corrected buffer is a top-K list of the keys so far. */
  lemma {:induction false} RankedIsTopK(keys: seq<int>, K: nat, m: nat)
    requires m <= |keys|
    ensures IsTopK(keys, K, m, Ranked(keys, K, m))
  {
    if m > 0 {
      var r := Ranked(keys, K, m - 1);
      RankedIsTopK(keys, K, m - 1);
      var s := Insert(keys, r, m - 1);
      if |s| <= K {
        UntruncatedKeepsTopK(keys, K, m, r, s);
        assert Ranked(keys, K, m) == s;
      } else {
        TruncateKeepsTopK(keys, K, m, r, s);
        assert Ranked(keys, K, m) == s[..K];
      }
    }
  }

  /** While fewer than `K` indices have been seen, the list holds all of them. */
  lemma UntruncatedKeepsTopK(keys: seq<int>, K: nat, m: nat, r: seq<nat>, s: seq<nat>)
    requires 0 < m <= |keys| && IsTopK(keys, K, m - 1, r) && s == Insert(keys, r, m - 1)
    requires |s| <= K
    ensures IsTopK(keys, K, m, s)
  {
    InsertDescending(keys, r, m - 1);
    InsertDistinct(keys, r, m - 1, m - 1);
    InsertTiesByIndex(keys, r, m - 1);
    InsertCover(keys, r, m, s);
  }

  /** When `r` covers the indices below `m - 1`, inserting `m - 1` covers those below `m`. */
  lemma InsertCover(keys: seq<int>, r: seq<nat>, m: nat, s: seq<nat>)
    requires 0 < m <= |keys| && DistinctBelow(r, m - 1) && |r| == m - 1 && s == Insert(keys, r, m - 1)
    ensures forall i :: 0 <= i < m ==> i in s
  {
    DistinctCover(r, m - 1);
    InsertEntries(keys, r, m - 1);
    forall i | 0 <= i < m
      ensures i in s
    {
      if i < m - 1 {
        assert i in r;
      }
    }
  }

  /** The indices below `m`. */
  function Below(m: nat): (b: set<nat>)
    ensures |b| == m
    ensures forall i :: i in b <==> 0 <= i < m
  {
    if m == 0 then {} else Below(m - 1) + {m - 1}
  }

  /** The entries of `r`. */
  function Entries(r: seq<nat>): (e: set<nat>)
    ensures forall x :: x in e <==> x in r
    ensures (forall a, b :: 0 <= a < b < |r| ==> r[a] != r[b]) ==> |e| == |r|
  {
    if |r| == 0 then {}
    else
      var q := r[..|r| - 1];
      assert r == q + [r[|r| - 1]];
      Entries(q) + {r[|r| - 1]}
  }

  /** `m` distinct indices below `m` are all of them. */
  lemma DistinctCover(r: seq<nat>, m: nat)
    requires DistinctBelow(r, m) && |r| == m
    ensures forall i :: 0 <= i < m ==> i in r
  {
    var e := Entries(r);
    forall x | x in e
      ensures x in Below(m)
    {
      var a :| 0 <= a < |r| && r[a] == x;
    }
    SubsetSameCard(e, Below(m));
  }

  lemma {:induction false} SubsetCard(a: set<nat>, b: set<nat>)
    requires a <= b
    ensures |a| <= |b|
    decreases |a|
  {
    if a != {} {
      var x :| x in a;
      SubsetCard(a - {x}, b - {x});
    }
  }

  lemma SubsetSameCard(a: set<nat>, b: set<nat>)
    requires a <= b && |a| == |b|
    ensures a == b
  {
    if a != b {
      var x :| x in b && x !in a;
      SubsetCard(a, b - {x});
    }
  }

  /** The corrected function returns the `min(|keys|, K)` largest keys' indices, largest first. */
  lemma TopKRankedIsTopK(keys: seq<int>, K: nat)
    ensures IsTopK(keys, K, |keys|, TopKRanked(keys, K))
  {
    RankedIsTopK(keys, K, |keys|);
  }

  /** For keys `[5, 1, 2, 3]` and `K = 2` the corrected function keeps indices 0 and 3. */
  lemma RankedExample()
    ensures TopKRanked([5, 1, 2, 3], 2) == [0, 3]
  {
    var keys := [5, 1, 2, 3];
    assert Insert(keys, [], 0) == [0];
    assert Ranked(keys, 2, 1) == [0];
    assert Insert(keys, [], 1) == [1];
    assert Insert(keys, [0], 1) == [0, 1];
    assert Ranked(keys, 2, 2) == [0, 1];
    assert Insert(keys, [1], 2) == [2, 1];
    assert Insert(keys, [0, 1], 2) == [0, 2, 1];
    assert Ranked(keys, 2, 3) == [0, 2];
    assert Insert(keys, [2], 3) == [3, 2];
    assert Insert(keys, [0, 2], 3) == [0, 3, 2];
  }

  /** Equal keys go to the lower index: for keys `[1, 1]` and `K = 1` the corrected function keeps index 0. */
  lemma RankedTieExample()
    ensures TopKRanked([1, 1], 1) == [0]
  {
    var keys := [1, 1];
    assert Insert(keys, [], 0) == [0];
    assert Ranked(keys, 1, 1) == [0];
    assert Insert(keys, [], 1) == [1];
    assert Insert(keys, [0], 1) == [0, 1];
  }
}
