/**
 * The two-day rolling cache: a map from calendar-day key to the daily record stored
 * under it.  This module holds the two steps of a reshape cycle that read and
 * rewrite it: resolving which cached record counts as "yesterday", and compacting
 * the cache to its two greatest keys.  Keys are compared with JavaScript's string
 * `<` (`Text.Less`), as `Object.keys(cache).sort()` and `k < todayKey` do.
 */
module DailyCache {
  import opened Wrappers
  import opened Text
  import opened Records

  type Cache = map<string, Record>

  // ---------------------------------------------------------------------------
  // Sorted keys
  // ---------------------------------------------------------------------------

  predicate IsLeast(k: string, s: set<string>)
  {
    k in s && forall j :: j in s ==> LessEq(k, j)
  }

  lemma {:induction false} LeastExists(s: set<string>)
    requires s != {}
    ensures exists k :: IsLeast(k, s)
    decreases |s|
  {
    var x :| x in s;
    if s != {x} {
      LeastExists(s - {x});
      var m :| IsLeast(m, s - {x});
      LessIsStrictTotalOrder();
      if Less(x, m) {
        forall j | j in s
          ensures LessEq(x, j)
        {
          if j != x {
            assert LessEq(m, j);
          }
        }
        assert IsLeast(x, s);
      } else {
        assert IsLeast(m, s);
      }
    } else {
      assert IsLeast(x, s);
    }
  }

  /** `Object.keys(cache).sort()`: the keys in increasing order. */
  function SortedKeys(s: set<string>): (keys: seq<string>)
    ensures StrictlySorted(keys)
    ensures |keys| == |s|
    ensures forall k :: k in keys <==> k in s
    decreases |s|
  {
    if s == {} then []
    else
      LeastExists(s);
      LessIsStrictTotalOrder();
      var k :| IsLeast(k, s);
      [k] + SortedKeys(s - {k})
  }

  /** `keys.indexOf(x)`: the first position of `x`, or -1. */
  function IndexOf(keys: seq<string>, x: string): (idx: int)
    ensures -1 <= idx < |keys|
    ensures idx == -1 <==> x !in keys
    ensures idx >= 0 ==> keys[idx] == x && forall j :: 0 <= j < idx ==> keys[j] != x
    decreases |keys|
  {
    if |keys| == 0 then -1
    else if keys[0] == x then 0
    else
      var rest := IndexOf(keys[1..], x);
      if rest == -1 then -1 else rest + 1
  }

  /** `keys.filter(k => k < bound)`. */
  function FilterBelow(keys: seq<string>, bound: string): (below: seq<string>)
    ensures forall k :: k in below <==> k in keys && Less(k, bound)
    ensures StrictlySorted(keys) ==> StrictlySorted(below)
    decreases |keys|
  {
    if |keys| == 0 then []
    else
      var rest := FilterBelow(keys[1..], bound);
      assert forall k :: k in keys[1..] ==> k in keys;
      assert StrictlySorted(keys) ==> forall k :: k in rest ==> Less(keys[0], k) by {
        if StrictlySorted(keys) {
          forall k | k in rest
            ensures Less(keys[0], k)
          {
            var p :| 0 <= p < |keys[1..]| && keys[1..][p] == k;
            assert keys[p + 1] == k;
          }
        }
      }
      if Less(keys[0], bound) then [keys[0]] + rest else rest
  }

  // ---------------------------------------------------------------------------
  // Resolving yesterday
  // ---------------------------------------------------------------------------

  /** `k` is the greatest key of `s` strictly below `bound`. */
  predicate IsGreatestBelow(s: set<string>, bound: string, k: string)
  {
    k in s && Less(k, bound) && forall j :: j in s && Less(j, bound) ==> LessEq(j, k)
  }

  /** There is only one greatest key below a bound. */
  lemma GreatestBelowUnique(s: set<string>, bound: string, k1: string, k2: string)
    requires IsGreatestBelow(s, bound, k1) && IsGreatestBelow(s, bound, k2)
    ensures k1 == k2
  {
    if k1 != k2 {
      LessTotal(k1, k2);
      if Less(k1, k2) {
        LessAsymmetric(k1, k2);
      } else {
        LessAsymmetric(k2, k1);
      }
    }
  }

  /**
   * The priority rule for yesterday's record: the entry at `yesterdayKey` if cached;
   * otherwise the entry at the greatest cached key below `todayKey` (which, when
   * `todayKey` itself is cached, is the key just before it in sorted order); otherwise
   * none.
   */
  ghost predicate ResolvesYesterday(cache: Cache, todayKey: string, yesterdayKey: string, y: Option<Record>)
  {
    if yesterdayKey in cache then y == Some(cache[yesterdayKey])
    else if exists k :: k in cache && Less(k, todayKey) then
      exists k :: IsGreatestBelow(cache.Keys, todayKey, k) && y == Some(cache[k])
    else y == None
  }

  /** The rule picks exactly one outcome. */
  lemma ResolvesYesterdayUnique(cache: Cache, todayKey: string, yesterdayKey: string, y1: Option<Record>, y2: Option<Record>)
    requires ResolvesYesterday(cache, todayKey, yesterdayKey, y1)
    requires ResolvesYesterday(cache, todayKey, yesterdayKey, y2)
    ensures y1 == y2
  {
    if yesterdayKey !in cache && exists k :: k in cache && Less(k, todayKey) {
      var k1 :| IsGreatestBelow(cache.Keys, todayKey, k1) && y1 == Some(cache[k1]);
      var k2 :| IsGreatestBelow(cache.Keys, todayKey, k2) && y2 == Some(cache[k2]);
      GreatestBelowUnique(cache.Keys, todayKey, k1, k2);
    }
  }

  /** With nothing cached there is no yesterday record. */
  lemma NothingCachedNoYesterday(todayKey: string, yesterdayKey: string, y: Option<Record>)
    requires ResolvesYesterday(map[], todayKey, yesterdayKey, y)
    ensures y == None
  {
  }

  /** In increasing keys, the key just before `keys[idx]` is the greatest one below it. */
  lemma PrecedingIsGreatestBelow(keys: seq<string>, idx: int)
    requires StrictlySorted(keys) && 0 < idx < |keys|
    ensures IsGreatestBelow((set k | k in keys), keys[idx], keys[idx - 1])
  {
    LessIsStrictTotalOrder();
    forall j | j in keys && Less(j, keys[idx])
      ensures LessEq(j, keys[idx - 1])
    {
      var p :| 0 <= p < |keys| && keys[p] == j;
    }
  }

  /** The last of the increasing keys below a bound is the greatest key below it. */
  lemma LastIsGreatestBelow(keys: seq<string>, bound: string, below: seq<string>)
    requires StrictlySorted(below) && |below| > 0
    requires forall k :: k in below <==> k in keys && Less(k, bound)
    ensures IsGreatestBelow((set k | k in keys), bound, below[|below| - 1])
  {
    forall j | j in keys && Less(j, bound)
      ensures LessEq(j, below[|below| - 1])
    {
      var p :| 0 <= p < |below| && below[p] == j;
    }
  }

  /**
   * Step 3 of a cycle, as `adaptWeather` does it: the entry at `yesterdayKey`; else,
   * when `todayKey` is cached, the entry just before it in the sorted keys; else the
   * last of the sorted keys below `todayKey`; else none.
   */
  method ResolveYesterday(cache: Cache, todayKey: string, yesterdayKey: string) returns (y: Option<Record>)
    ensures yesterdayKey in cache ==> y == Some(cache[yesterdayKey])
    ensures yesterdayKey !in cache ==> (y.None? <==> forall k :: k in cache ==> !Less(k, todayKey))
    ensures yesterdayKey !in cache && y.Some? ==>
              exists k :: IsGreatestBelow(cache.Keys, todayKey, k) && y.value == cache[k]
    ensures ResolvesYesterday(cache, todayKey, yesterdayKey, y)
  {
    y := None;
    if yesterdayKey in cache {
      y := Some(cache[yesterdayKey]);
    } else if todayKey in cache {
      var keys := SortedKeys(cache.Keys);
      var idx := IndexOf(keys, todayKey);
      if idx > 0 {
        y := Some(cache[keys[idx - 1]]);
      }
      PrecedingResolves(cache, todayKey, yesterdayKey, keys, idx);
    } else {
      var keys := SortedKeys(cache.Keys);
      var prevKeys := FilterBelow(keys, todayKey);
      if |prevKeys| > 0 {
        y := Some(cache[prevKeys[|prevKeys| - 1]]);
      }
      LastBelowResolves(cache, todayKey, yesterdayKey, keys, prevKeys);
    }
    ResolvedCases(cache, todayKey, yesterdayKey, y);
  }

  /** When today's key is cached, the rule picks the entry just before it in sorted order, if any. */
  lemma PrecedingResolves(cache: Cache, todayKey: string, yesterdayKey: string, keys: seq<string>, idx: int)
    requires yesterdayKey !in cache
    requires StrictlySorted(keys) && forall k :: k in keys <==> k in cache
    requires 0 <= idx < |keys| && keys[idx] == todayKey
    ensures idx > 0 ==> ResolvesYesterday(cache, todayKey, yesterdayKey, Some(cache[keys[idx - 1]]))
    ensures idx == 0 ==> ResolvesYesterday(cache, todayKey, yesterdayKey, None)
  {
    assert cache.Keys == set k | k in keys;
    if idx > 0 {
      PrecedingIsGreatestBelow(keys, idx);
    } else {
      LessIsStrictTotalOrder();
      forall k | k in cache
        ensures !Less(k, todayKey)
      {
        var p :| 0 <= p < |keys| && keys[p] == k;
        assert p == 0 || Less(keys[0], keys[p]);
      }
    }
  }

  /** Otherwise the rule picks the last of the sorted keys below today's key, if any. */
  lemma LastBelowResolves(cache: Cache, todayKey: string, yesterdayKey: string, keys: seq<string>, prevKeys: seq<string>)
    requires yesterdayKey !in cache
    requires forall k :: k in keys <==> k in cache
    requires StrictlySorted(prevKeys) && forall k :: k in prevKeys <==> k in keys && Less(k, todayKey)
    ensures |prevKeys| > 0 ==> ResolvesYesterday(cache, todayKey, yesterdayKey, Some(cache[prevKeys[|prevKeys| - 1]]))
    ensures |prevKeys| == 0 ==> ResolvesYesterday(cache, todayKey, yesterdayKey, None)
  {
    assert cache.Keys == set k | k in keys;
    if |prevKeys| > 0 {
      LastIsGreatestBelow(keys, todayKey, prevKeys);
    }
  }

  /** What the priority rule says, case by case. */
  lemma ResolvedCases(cache: Cache, todayKey: string, yesterdayKey: string, y: Option<Record>)
    requires ResolvesYesterday(cache, todayKey, yesterdayKey, y)
    ensures yesterdayKey in cache ==> y == Some(cache[yesterdayKey])
    ensures yesterdayKey !in cache ==> (y.None? <==> forall k :: k in cache ==> !Less(k, todayKey))
    ensures yesterdayKey !in cache && y.Some? ==>
              exists k :: IsGreatestBelow(cache.Keys, todayKey, k) && y.value == cache[k]
  {
  }

  // ---------------------------------------------------------------------------
  // Compaction to the two greatest keys
  // ---------------------------------------------------------------------------

  function Min(a: int, b: int): int
  {
    if a < b then a else b
  }

  /**
   * `kept` is `cache` compacted to its two greatest keys: a sub-map with the same
   * values, of size min(2, |cache|), where every dropped key is below every kept one.
   */
  ghost predicate IsLatestTwo(cache: Cache, kept: Cache)
  {
    && kept.Keys <= cache.Keys
    && (forall k :: k in kept ==> kept[k] == cache[k])
    && |kept| == Min(2, |cache|)
    && forall d, k :: d in cache && d !in kept && k in kept ==> Less(d, k)
  }

  /**
   * Step 5 of a cycle: sort the keys, keep the last two (`slice(-2)`) and copy their
   * entries into a new map, one key at a time.
   */
  method KeepLatestTwo(cache: Cache) returns (kept: Cache)
    ensures IsLatestTwo(cache, kept)
    ensures |kept| <= 2
  {
    var sortedKeys := SortedKeys(cache.Keys);
    var n := |sortedKeys|;
    var start := if n <= 2 then 0 else n - 2;
    var keepKeys := sortedKeys[start..];
    kept := CopyEntries(cache, keepKeys);
    TailIsLatestTwo(cache, sortedKeys, start, kept);
  }

  /** `for (const k of keys) newCache[k] = cache[k]`: a new map holding the entries at `keys`. */
  method CopyEntries(cache: Cache, keys: seq<string>) returns (copy: Cache)
    requires forall k :: k in keys ==> k in cache
    ensures forall k :: k in copy <==> k in keys
    ensures forall k :: k in copy ==> copy[k] == cache[k]
  {
    copy := map[];
    for i := 0 to |keys|
      invariant forall k :: k in copy <==> k in keys[..i]
      invariant forall k :: k in copy ==> k in cache && copy[k] == cache[k]
    {
      assert keys[..i + 1] == keys[..i] + [keys[i]];
      copy := copy[keys[i] := cache[keys[i]]];
    }
    assert keys[..|keys|] == keys;
  }

  /** A map whose keys are those of a sorted sequence of at most two keys has that many entries. */
  lemma SizeOfShortSorted(keys: seq<string>, m: Cache)
    requires StrictlySorted(keys) && |keys| <= 2
    requires forall k :: k in m <==> k in keys
    ensures |m| == |keys|
  {
    if |keys| == 2 {
      LessIrreflexive(keys[0]);
      assert m.Keys == {keys[0], keys[1]};
    } else if |keys| == 1 {
      assert m.Keys == {keys[0]};
    } else {
      assert m.Keys == {};
    }
  }

  /** Copying the entries at the last (at most) two of the sorted keys yields the compacted cache. */
  lemma TailIsLatestTwo(cache: Cache, sortedKeys: seq<string>, start: nat, kept: Cache)
    requires StrictlySorted(sortedKeys) && |sortedKeys| == |cache|
    requires forall k :: k in sortedKeys <==> k in cache
    requires start == if |sortedKeys| <= 2 then 0 else |sortedKeys| - 2
    requires forall k :: k in kept <==> k in sortedKeys[start..]
    requires forall k :: k in kept ==> k in cache && kept[k] == cache[k]
    ensures IsLatestTwo(cache, kept)
  {
    var keepKeys := sortedKeys[start..];
    assert StrictlySorted(keepKeys);
    SizeOfShortSorted(keepKeys, kept);
    forall d, k | d in cache && d !in kept && k in kept
      ensures Less(d, k)
    {
      DroppedBelowKept(sortedKeys, start, d, k);
    }
  }

  /** In increasing keys, a key outside the tail starting at `start` is below every key in it. */
  lemma DroppedBelowKept(keys: seq<string>, start: nat, d: string, k: string)
    requires StrictlySorted(keys) && start <= |keys|
    requires d in keys && d !in keys[start..] && k in keys[start..]
    ensures Less(d, k)
  {
    var p :| 0 <= p < |keys| && keys[p] == d;
    var q :| 0 <= q < |keys[start..]| && keys[start..][q] == k;
  }

  // ---------------------------------------------------------------------------
  // What compaction keeps
  // ---------------------------------------------------------------------------

  lemma {:induction false} SubsetCard(a: set<string>, b: set<string>)
    requires a <= b
    ensures |a| <= |b|
    decreases |a|
  {
    if a != {} {
      var x :| x in a;
      SubsetCard(a - {x}, b - {x});
    }
  }

  lemma SubsetSameSize(a: set<string>, b: set<string>)
    requires a <= b && |a| == |b|
    ensures a == b
  {
    if a != b {
      assert !(b <= a);
      var x :| x in b && x !in a;
      SubsetCard(a, b - {x});
    }
  }

  /** Compaction is determined by the cache: it has only one possible result. */
  lemma LatestTwoUnique(cache: Cache, a: Cache, b: Cache)
    requires IsLatestTwo(cache, a) && IsLatestTwo(cache, b)
    ensures a == b
  {
    if a.Keys != b.Keys {
      if a.Keys <= b.Keys {
        SubsetSameSize(a.Keys, b.Keys);
      } else {
        var k :| k in a.Keys && k !in b.Keys;
        if b.Keys <= a.Keys {
          SubsetSameSize(b.Keys, a.Keys);
        }
        var j :| j in b.Keys && j !in a.Keys;
        assert Less(k, j) && Less(j, k);
        LessAsymmetric(k, j);
      }
    }
  }

  /** A cache of at most two keys is kept as it is. */
  lemma SmallCacheKept(cache: Cache, kept: Cache)
    requires |cache| <= 2 && IsLatestTwo(cache, kept)
    ensures kept == cache
  {
    SubsetSameSize(kept.Keys, cache.Keys);
  }

  /** Compacting a compacted cache changes nothing. */
  lemma CompactionIdempotent(cache: Cache, once: Cache, twice: Cache)
    requires IsLatestTwo(cache, once) && IsLatestTwo(once, twice)
    ensures twice == once
  {
    SmallCacheKept(once, twice);
  }

  /** At most one key of `cache` is greater than `k`. */
  ghost predicate AtMostOneAbove(cache: Cache, k: string)
  {
    forall a, b :: a in cache && b in cache && Less(k, a) && Less(k, b) ==> a == b
  }

  /** A key is kept exactly when it is cached and at most one cached key is greater. */
  lemma KeptIffAmongTopTwo(cache: Cache, kept: Cache, k: string)
    requires IsLatestTwo(cache, kept)
    ensures k in kept <==> k in cache && AtMostOneAbove(cache, k)
  {
    LessIsStrictTotalOrder();
    if k in kept {
      forall a, b | a in cache && b in cache && Less(k, a) && Less(k, b)
        ensures a == b
      {
        if a != b {
          assert a in kept && b in kept;
          assert k != a && k != b;
          SubsetCard({k, a, b}, kept.Keys);
        }
      }
    } else if k in cache && AtMostOneAbove(cache, k) {
      if |cache| <= 2 {
        SmallCacheKept(cache, kept);
      } else {
        var a :| a in kept.Keys;
        assert |kept.Keys - {a}| == 1;
        var b :| b in kept.Keys - {a};
        assert false;
      }
    }
  }
}
