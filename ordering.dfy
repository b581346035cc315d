/** The `order_by(<time column>.desc())` of a listing query: ids ordered by
    a timestamp per id, newest first. */
module Ordering {

  /** `ids` names ids of `time` with non-increasing timestamps. */
  predicate NewestFirst(time: map<nat, int>, ids: seq<nat>) {
    && (forall i :: 0 <= i < |ids| ==> ids[i] in time)
    && (forall i, j :: 0 <= i < j < |ids| ==> time[ids[i]] >= time[ids[j]])
  }

  /** Puts `k` into a newest-first list: before the first entry that is not
      newer than it. */
  function InsertNewest(time: map<nat, int>, ids: seq<nat>, k: nat): (r: seq<nat>)
    requires k in time && forall i :: 0 <= i < |ids| ==> ids[i] in time
    ensures multiset(r) == multiset(ids) + multiset{k}
    ensures forall x :: x in r ==> x == k || x in ids
    decreases |ids|
  {
    if ids == [] then [k]
    else if time[k] >= time[ids[0]] then [k] + ids
    else
      assert ids == [ids[0]] + ids[1..];
      [ids[0]] + InsertNewest(time, ids[1..], k)
  }

  /** A list headed by `h`, newest first after it, and no newer than `h`. */
  lemma ConsNewestFirst(time: map<nat, int>, h: nat, rest: seq<nat>)
    requires h in time && NewestFirst(time, rest)
    requires forall x :: x in rest ==> time[h] >= time[x]
    ensures NewestFirst(time, [h] + rest)
  {
    var r := [h] + rest;
    forall i, j | 0 <= i < j < |r| ensures time[r[i]] >= time[r[j]] {
      assert r[j] == rest[j - 1];
      if i > 0 {
        assert r[i] == rest[i - 1];
      } else {
        assert rest[j - 1] in rest;
      }
    }
  }

  /** Inserting keeps a list newest first. */
  lemma {:induction false} InsertKeepsNewestFirst(time: map<nat, int>, ids: seq<nat>, k: nat)
    requires k in time && NewestFirst(time, ids)
    ensures NewestFirst(time, InsertNewest(time, ids, k))
    decreases |ids|
  {
    if ids == [] {
    } else if time[k] >= time[ids[0]] {
      forall x | x in ids ensures time[k] >= time[x] {
        var j :| 0 <= j < |ids| && ids[j] == x;
        if j > 0 {
          assert time[ids[0]] >= time[ids[j]];
        }
      }
      ConsNewestFirst(time, k, ids);
    } else {
      var h, tail := ids[0], ids[1..];
      assert NewestFirst(time, tail) by {
        forall i, j | 0 <= i < j < |tail| ensures time[tail[i]] >= time[tail[j]] {
          assert tail[i] == ids[i + 1] && tail[j] == ids[j + 1];
        }
      }
      InsertKeepsNewestFirst(time, tail, k);
      var rest := InsertNewest(time, tail, k);
      forall x | x in rest ensures time[h] >= time[x] {
        if x != k {
          var j :| 0 <= j < |tail| && tail[j] == x;
          assert ids[j + 1] == x;
        }
      }
      ConsNewestFirst(time, h, rest);
    }
  }

  /** The selected ids, each once, newest first: the query's result before
      paging. */
  method SortNewestFirst(time: map<nat, int>, selected: set<nat>) returns (ids: seq<nat>)
    requires selected <= time.Keys
    ensures multiset(ids) == multiset(selected)
    ensures NewestFirst(time, ids)
    ensures |ids| == |selected|
  {
    var remaining := selected;
    ids := [];
    while remaining != {}
      invariant remaining <= selected
      invariant multiset(ids) == multiset(selected - remaining)
      invariant NewestFirst(time, ids)
      decreases |remaining|
    {
      var k :| k in remaining;
      InsertKeepsNewestFirst(time, ids, k);
      ids := InsertNewest(time, ids, k);
      assert selected - (remaining - {k}) == (selected - remaining) + {k};
      remaining := remaining - {k};
    }
    assert selected - remaining == selected;
    assert |multiset(ids)| == |ids|;
  }
}
