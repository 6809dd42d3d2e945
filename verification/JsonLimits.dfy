/** What it means that a tree breaks no limit, said without counting. */
module JsonLimits {
  import opened Bytes
  import opened JsonGrammar

  /** Strings, keys and arrays are no longer than allowed, numbers finite, and at
      most `depth` containers stand inside each other. */
  ghost predicate Within(v: Json, lim: Limits, depth: int)
    decreases v
  {
    match v
    case Str(t) => |t| <= lim.maxString
    case Real(t) => lim.finite(t)
    case Arr(items) =>
      && depth > 0 && Capacity(|items|) <= lim.maxArray
      && forall k :: 0 <= k < |items| ==> Within(items[k], lim, depth - 1)
    case Obj(pairs) =>
      && depth > 0
      && forall k :: 0 <= k < |pairs| ==> |pairs[k].key| <= lim.maxString && Within(pairs[k].value, lim, depth - 1)
    case _ => true
  }

  /** A tree fits exactly if it is within the limits and its nodes are. */
  lemma {:induction false} FitsMeans(v: Json, lim: Limits, used: nat)
    ensures Fits(v, lim, used) <==> Within(v, lim, lim.maxDepth - 1) && used + Nodes(v) <= lim.maxNodes
  {
    ExcessMeans(v, lim, lim.maxDepth - 1);
  }

  lemma {:induction false} ExcessMeans(v: Json, lim: Limits, depth: int)
    ensures Excess(v, lim, depth) == 0 <==> Within(v, lim, depth)
    decreases v, 1
  {
    match v
    case Arr(items) => ItemsMean(items, lim, depth - 1);
    case Obj(pairs) => PairsMean(pairs, lim, depth - 1);
    case _ =>
  }

  lemma {:induction false} ItemsMean(items: seq<Json>, lim: Limits, depth: int)
    ensures ItemExcess(items, lim, depth) == 0 <==> forall k :: 0 <= k < |items| ==> Within(items[k], lim, depth)
    decreases items, 0
  {
    if items != [] {
      var n := |items| - 1;
      ItemsMean(items[..n], lim, depth);
      ExcessMeans(items[n], lim, depth);
      assert forall k :: 0 <= k < n ==> items[..n][k] == items[k];
    }
  }

  lemma {:induction false} PairsMean(pairs: seq<Pair>, lim: Limits, depth: int)
    ensures PairExcess(pairs, lim, depth) == 0 <==>
            forall k :: 0 <= k < |pairs| ==> |pairs[k].key| <= lim.maxString && Within(pairs[k].value, lim, depth)
    decreases pairs, 0
  {
    if pairs != [] {
      var n := |pairs| - 1;
      PairsMean(pairs[..n], lim, depth);
      ExcessMeans(pairs[n].value, lim, depth);
      assert forall k :: 0 <= k < n ==> pairs[..n][k] == pairs[k];
    }
  }

  /** Room for entries is the least eight times a power of two that holds them. */
  lemma {:induction false} CapacityLeast(n: nat) returns (k: nat)
    requires n > 0
    ensures Capacity(n) == 8 * Pow2(k) >= n && (k > 0 ==> 8 * Pow2(k - 1) < n)
  {
    k := 0;
    if n > 8 {
      var j := CapacityLeast((n + 1) / 2);
      k := j + 1;
    }
  }
}
