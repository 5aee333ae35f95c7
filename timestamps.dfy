/**
 * The newest modification time of a collection's assets, as last_modified()
 * computes it: the assets' timestamps, with the falsy ones (NULL, 0) filtered
 * out as array_filter does, then their maximum.
 */
module Timestamps {
  import opened Wrappers
  import opened AssetRecords

  /** PHP truthiness of a timestamp: NULL and 0 are false. */
  predicate IsTruthyTime(t: Option<int>) {
    t.Some? && t.value != 0
  }

  /** array_filter on the timestamps: the truthy ones, in order. */
  function TruthyTimes(ts: seq<Option<int>>): (r: seq<int>)
    ensures forall x :: x in r <==> Some(x) in ts && x != 0
  {
    if ts == [] then []
    else
      assert forall t :: t in ts <==> t == ts[0] || t in ts[1..];
      (if IsTruthyTime(ts[0]) then [ts[0].value] else []) + TruthyTimes(ts[1..])
  }

  /** max() on a non-empty list. */
  function MaxOf(s: seq<int>): (m: int)
    requires s != []
    ensures m in s
    ensures forall x :: x in s ==> x <= m
  {
    if |s| == 1 then s[0]
    else
      var rest := MaxOf(s[1..]);
      assert forall x :: x in s ==> x == s[0] || x in s[1..];
      if s[0] >= rest then s[0] else rest
  }

  /** `_invoke($assets, 'last_modified')`, as values. */
  function TimesOf(xs: seq<Asset>): seq<Option<int>> {
    seq(|xs|, i requires 0 <= i < |xs| => xs[i].lastModified)
  }

  /** The newest truthy timestamp of the assets; None when no asset reports one. */
  function LatestTime(xs: seq<Asset>): (r: Option<int>)
    ensures r.Some? ==> r.value != 0 && Some(r.value) in TimesOf(xs)
  {
    var ts := TruthyTimes(TimesOf(xs));
    if ts == [] then None else Some(MaxOf(ts))
  }

  /**
   * LatestTime is the maximum of the truthy timestamps: None exactly when there
   * are none, and otherwise one of them, at least as new as every other.
   */
  lemma LatestTimeIsMax(xs: seq<Asset>)
    ensures LatestTime(xs).None? <==> forall i :: 0 <= i < |xs| ==> !IsTruthyTime(xs[i].lastModified)
    ensures LatestTime(xs).Some? ==>
      IsTruthyTime(LatestTime(xs)) && exists i :: 0 <= i < |xs| && xs[i].lastModified == LatestTime(xs)
    ensures LatestTime(xs).Some? ==>
      forall i :: 0 <= i < |xs| && IsTruthyTime(xs[i].lastModified) ==> xs[i].lastModified.value <= LatestTime(xs).value
  {
    var ts := TruthyTimes(TimesOf(xs));
    forall i | 0 <= i < |xs| && IsTruthyTime(xs[i].lastModified) ensures xs[i].lastModified.value in ts {
      assert TimesOf(xs)[i] == xs[i].lastModified;
    }
    if ts != [] {
      var m := MaxOf(ts);
      assert Some(m) in TimesOf(xs);
      var i :| 0 <= i < |xs| && TimesOf(xs)[i] == Some(m);
    }
  }

  lemma {:induction false} TruthyTimesAppend(ts: seq<Option<int>>, us: seq<Option<int>>)
    ensures TruthyTimes(ts + us) == TruthyTimes(ts) + TruthyTimes(us)
  {
    if ts == [] {
      assert ts + us == us;
    } else {
      assert (ts + us)[0] == ts[0] && (ts + us)[1..] == ts[1..] + us;
      TruthyTimesAppend(ts[1..], us);
    }
  }

  lemma TimesOfAppend(xs: seq<Asset>, ys: seq<Asset>)
    ensures TimesOf(xs + ys) == TimesOf(xs) + TimesOf(ys)
  {
    assert |TimesOf(xs + ys)| == |TimesOf(xs) + TimesOf(ys)|;
    forall i | 0 <= i < |xs + ys| ensures TimesOf(xs + ys)[i] == (TimesOf(xs) + TimesOf(ys))[i] {
      if i < |xs| {
        assert (xs + ys)[i] == xs[i];
      } else {
        assert (xs + ys)[i] == ys[i - |xs|];
      }
    }
  }

  /** An asset that reports no time does not change the collection's time, wherever it stands. */
  lemma UntimedAssetIgnored(xs: seq<Asset>, a: Asset, ys: seq<Asset>)
    requires !IsTruthyTime(a.lastModified)
    ensures LatestTime(xs + [a] + ys) == LatestTime(xs + ys)
  {
    var tx, ty := TimesOf(xs), TimesOf(ys);
    TimesOfAppend(xs + [a], ys);
    TimesOfAppend(xs, [a]);
    TimesOfAppend(xs, ys);
    assert TimesOf([a]) == [a.lastModified];
    TruthyTimesAppend(tx + [a.lastModified], ty);
    TruthyTimesAppend(tx, [a.lastModified]);
    TruthyTimesAppend(tx, ty);
    assert TruthyTimes([a.lastModified]) == [];
    assert TruthyTimes(TimesOf(xs + [a] + ys)) == TruthyTimes(TimesOf(xs + ys));
  }
}
