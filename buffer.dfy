/**
 * The reordering buffer of processed frames (`received_frames` in
 * distributor.py): a map from frame index to entry, pruned behind the display
 * cursor and bounded in size, and the nearest-frame lookup used when the
 * frame under the cursor is missing.
 */
module FrameBuffer {

  /** Most entries the buffer keeps (`frame_buffer_size`). */
  const FrameBufferSize := 50

  /** The entries whose index is not behind the display cursor. */
  function AtOrAfter<V>(m: map<int, V>, cursor: int): (r: map<int, V>)
  {
    map k | k in m && cursor <= k :: m[k]
  }

  /** `k` is the smallest element of `s`. */
  predicate IsLeast(s: set<int>, k: int)
  {
    k in s && forall j :: j in s ==> k <= j
  }

  /** Some element of a non-empty set. */
  lemma ElementOf(s: set<int>) returns (x: int)
    requires s != {}
    ensures x in s
  {
    if forall y: int :: y !in s {
      assert false;
    }
    x :| x in s;
  }

  lemma {:induction false} LeastExists(s: set<int>)
    requires s != {}
    ensures exists k :: IsLeast(s, k)
  {
    var x := ElementOf(s);
    if s == {x} {
      assert IsLeast(s, x);
    } else {
      LeastExists(s - {x});
      var y :| IsLeast(s - {x}, y);
      var k := if x < y then x else y;
      forall j | j in s ensures k <= j {
        if j != x {
          assert j in s - {x};
        }
      }
      assert IsLeast(s, k);
    }
  }

  ghost function Least(s: set<int>): (k: int)
    requires s != {}
    ensures IsLeast(s, k)
  {
    LeastExists(s);
    var k :| IsLeast(s, k); k
  }

  /** The `n` smallest elements of `s` (all of them when it has fewer): `sorted(s)[:n]`. */
  ghost function SmallestKeys(s: set<int>, n: nat): (r: set<int>)
    decreases n
  {
    if n == 0 || s == {} then {}
    else {Least(s)} + SmallestKeys(s - {Least(s)}, n - 1)
  }

  /** Taking the least element is the first step of `SmallestKeys`. */
  lemma SmallestKeysStep(s: set<int>, n: nat, x: int)
    requires 0 < n && IsLeast(s, x)
    ensures SmallestKeys(s, n) == {x} + SmallestKeys(s - {x}, n - 1)
  {
    assert x == Least(s);
  }

  /** The smallest keys are keys of the set. */
  lemma {:induction false} SmallestKeysSubset(s: set<int>, n: nat)
    ensures SmallestKeys(s, n) <= s
    decreases n
  {
    if n != 0 && s != {} {
      SmallestKeysSubset(s - {Least(s)}, n - 1);
    }
  }

  /** Exactly `n` keys are taken, or all of them when there are fewer. */
  lemma {:induction false} SmallestKeysSize(s: set<int>, n: nat)
    ensures |SmallestKeys(s, n)| == if n <= |s| then n else |s|
    decreases n
  {
    if n != 0 && s != {} {
      var x := Least(s);
      SmallestKeysSubset(s - {x}, n - 1);
      SmallestKeysSize(s - {x}, n - 1);
    }
  }

  /** Every taken key is below every key left behind. */
  lemma {:induction false} SmallestKeysBelowRest(s: set<int>, n: nat)
    ensures forall j, k :: j in SmallestKeys(s, n) && k in s && k !in SmallestKeys(s, n) ==> j < k
    decreases n
  {
    if n != 0 && s != {} {
      var x := Least(s);
      SmallestKeysBelowRest(s - {x}, n - 1);
      SmallestKeysSubset(s - {x}, n - 1);
    }
  }

  /** Deleting the keys behind the cursor leaves the entries at or after it. */
  lemma DeleteStale<V>(m: map<int, V>, cursor: int, stale: set<int>)
    requires stale == set k | k in m && k < cursor
    ensures m - stale == AtOrAfter(m, cursor)
  {
    assert (m - stale).Keys == AtOrAfter(m, cursor).Keys;
  }

  /**
   * The buffer after `cleanup_old_frames`: the entries behind the cursor are
   * deleted, then, when more than `FrameBufferSize` remain, the smallest keys
   * of the excess.
   */
  ghost function Cleaned<V>(m: map<int, V>, cursor: int): (r: map<int, V>)
  {
    var kept := AtOrAfter(m, cursor);
    if |kept| > FrameBufferSize then kept - SmallestKeys(kept.Keys, |kept| - FrameBufferSize) else kept
  }

  /**
   * After cleanup no key is behind the cursor, entries are unchanged, the
   * buffer holds the entries at or after the cursor capped at
   * `FrameBufferSize`, and an entry at or after the cursor is evicted only
   * when it is below every kept key.
   */
  lemma CleanedSpec<V>(m: map<int, V>, cursor: int)
    ensures forall k :: k in Cleaned(m, cursor) ==> cursor <= k && k in m && Cleaned(m, cursor)[k] == m[k]
    ensures |Cleaned(m, cursor)| == if |AtOrAfter(m, cursor)| > FrameBufferSize then FrameBufferSize else |AtOrAfter(m, cursor)|
    ensures forall k, j :: k in Cleaned(m, cursor) && j in m && cursor <= j && j !in Cleaned(m, cursor) ==> j < k
  {
    var kept := AtOrAfter(m, cursor);
    forall j | j in m && cursor <= j ensures j in kept { }
    if |kept| > FrameBufferSize {
      var n := |kept| - FrameBufferSize;
      var gone := SmallestKeys(kept.Keys, n);
      SmallestKeysSubset(kept.Keys, n);
      SmallestKeysSize(kept.Keys, n);
      SmallestKeysBelowRest(kept.Keys, n);
      assert (kept - gone).Keys == kept.Keys - gone;
      assert |kept.Keys - gone| == |kept.Keys| - |gone|;
    }
  }

  /** Cleanup keeps a buffer within `FrameBufferSize` and adds no newer key. */
  lemma CleanedBounded<V>(m: map<int, V>, cursor: int, latest: int)
    requires forall k :: k in m ==> k <= latest
    ensures |Cleaned(m, cursor)| <= FrameBufferSize
    ensures forall k :: k in Cleaned(m, cursor) ==> k <= latest
  {
    CleanedSpec(m, cursor);
  }

  /** How far frame `k` is from `target`. */
  function Distance(k: int, target: int): (d: nat)
  {
    if k < target then target - k else k - target
  }

  /**
   * `k` is the key `min(sorted(keys), key=lambda x: abs(x - target))` picks:
   * no key is nearer, and of two equally near keys the smaller, which comes
   * first in sorted order, wins.
   */
  ghost predicate IsNearest(keys: set<int>, target: int, k: int)
  {
    && k in keys
    && forall j :: j in keys ==>
         Distance(k, target) < Distance(j, target) || (Distance(k, target) == Distance(j, target) && k <= j)
  }

  /** At most one key is the nearest. */
  lemma NearestUnique(keys: set<int>, target: int, a: int, b: int)
    requires IsNearest(keys, target, a) && IsNearest(keys, target, b)
    ensures a == b
  {
  }

  /**
   * Python's `min` over the sorted keys: scan in ascending order and replace
   * the best so far only by a strictly nearer key.
   */
  method NearestKey(keys: set<int>, target: int) returns (k: int)
    requires keys != {}
    ensures IsNearest(keys, target, k)
  {
    LeastExists(keys);
    var first :| IsLeast(keys, first);
    k := first;
    var seen := {first};
    var rest := keys - {first};
    while rest != {}
      invariant seen + rest == keys && seen !! rest
      invariant forall s, u :: s in seen && u in rest ==> s < u
      invariant IsNearest(seen, target, k)
      decreases rest
    {
      LeastExists(rest);
      var next :| IsLeast(rest, next);
      if Distance(next, target) < Distance(k, target) {
        k := next;
      }
      seen := seen + {next};
      rest := rest - {next};
    }
  }
}
