/** The two numpy/pandas selection primitives the throttle extractor is
    built from: `np.where(mask)[0]` and boolean-mask selection
    `series[mask]`. */
module Series {

  /** `np.where(mask)[0]`: the positions where `mask` holds, ascending. */
  function Where(mask: seq<bool>): (r: seq<nat>)
    ensures forall k :: 0 <= k < |r| ==> r[k] < |mask| && mask[r[k]]
    ensures forall k, l :: 0 <= k < l < |r| ==> r[k] < r[l]
  {
    if |mask| == 0 then []
    else
      var n := |mask| - 1;
      var front := Where(mask[..n]);
      assert forall k :: 0 <= k < |front| ==> mask[front[k]] == mask[..n][front[k]];
      front + (if mask[n] then [n] else [])
  }

  /** `np.where` misses no position: every position where the mask holds is
      reported, at index `k`. */
  lemma {:induction false} WhereIndex(mask: seq<bool>, p: nat) returns (k: nat)
    requires p < |mask| && mask[p]
    ensures k < |Where(mask)| && Where(mask)[k] == p
    decreases |mask|
  {
    var n := |mask| - 1;
    var front := Where(mask[..n]);
    assert Where(mask) == front + (if mask[n] then [n] else []);
    if p == n {
      k := |front|;
    } else {
      k := WhereIndex(mask[..n], p);
    }
  }

  /** `xs[ps]` for a list of positions. */
  function Select<T>(xs: seq<T>, ps: seq<nat>): (r: seq<T>)
    requires forall k :: 0 <= k < |ps| ==> ps[k] < |xs|
  {
    seq(|ps|, k requires 0 <= k < |ps| => xs[ps[k]])
  }

  /** The first position `np.where` reports is the least one where the mask
      holds, and it reports one exactly when the mask holds somewhere. */
  lemma WhereFirst(mask: seq<bool>)
    ensures |Where(mask)| == 0 <==> forall p :: 0 <= p < |mask| ==> !mask[p]
    ensures |Where(mask)| > 0 ==> forall p :: 0 <= p < Where(mask)[0] ==> !mask[p]
  {
    var r := Where(mask);
    forall p | 0 <= p < |mask| && mask[p]
      ensures |r| > 0 && r[0] <= p
    {
      var k := WhereIndex(mask, p);
      assert k == 0 || r[0] < r[k];
    }
  }

  /** Nothing between two consecutive reported positions satisfies the mask. */
  lemma WhereGap(mask: seq<bool>, k: nat, p: nat)
    requires k < |Where(mask)|
    requires Where(mask)[k] < p < |mask|
    requires k + 1 < |Where(mask)| ==> p < Where(mask)[k + 1]
    ensures !mask[p]
  {
    var r := Where(mask);
    if mask[p] {
      var l := WhereIndex(mask, p);
      assert false;
    }
  }

  /** `locations > f`, element by element. */
  function GreaterMask(locations: seq<nat>, f: int): seq<bool> {
    seq(|locations|, m requires 0 <= m < |locations| => locations[m] > f)
  }

  /** A position after `f` where the mask holds bounds the one that
      `locations[np.where(locations > f)[0][0]]` finds. */
  lemma WhereAfterBound(mask: seq<bool>, f: nat, p: nat)
    requires f < p < |mask| && mask[p]
    ensures var ps := Where(mask);
            var later := Where(GreaterMask(ps, f));
            |later| > 0 && ps[later[0]] <= p
  {
    var ps := Where(mask);
    var g := GreaterMask(ps, f);
    var later := Where(g);
    var m := WhereIndex(mask, p);
    assert g[m];
    var l := WhereIndex(g, m);
    assert later[0] <= m by {
      assert l == 0 || later[0] < later[l];
    }
    assert later[0] == m || ps[later[0]] < ps[m];
  }

  /** What `locations[np.where(locations > f)[0][0]]` finds is a position
      after `f` where the mask holds. */
  lemma WhereAfterHit(mask: seq<bool>, f: nat)
    ensures var ps := Where(mask);
            var later := Where(GreaterMask(ps, f));
            |later| > 0 ==> f < ps[later[0]] < |mask| && mask[ps[later[0]]]
  {
    var ps := Where(mask);
    var later := Where(GreaterMask(ps, f));
    if |later| > 0 {
      assert GreaterMask(ps, f)[later[0]];
    }
  }

  /** `locations[np.where(locations > f)[0][0]]` with `locations = np.where(mask)[0]`
      is the first position after `f` where the mask holds, and the lookup
      has something to find exactly when there is one. */
  lemma WhereFirstAfter(mask: seq<bool>, f: nat)
    ensures |Where(GreaterMask(Where(mask), f))| == 0 <==> forall p :: f < p < |mask| ==> !mask[p]
    ensures var ps := Where(mask);
            var later := Where(GreaterMask(ps, f));
            |later| > 0 ==> f < ps[later[0]] < |mask| && mask[ps[later[0]]]
    ensures var ps := Where(mask);
            var later := Where(GreaterMask(ps, f));
            |later| > 0 ==> forall p :: f < p < ps[later[0]] ==> !mask[p]
  {
    forall p | f < p < |mask| && mask[p]
      ensures var ps := Where(mask);
              var later := Where(GreaterMask(ps, f));
              |later| > 0 && ps[later[0]] <= p
    {
      WhereAfterBound(mask, f, p);
    }
    WhereAfterHit(mask, f);
  }

  /** Searching a selection: with `ps = np.where(keep)[0]`, a mask `want`
      over the selected entries that reads a mask `wanted` over the original
      positions finds, first, the least original position that is wanted. */
  lemma WhereThroughSelection(keep: seq<bool>, wanted: seq<bool>, want: seq<bool>)
    requires |wanted| == |keep|
    requires forall p :: 0 <= p < |keep| && wanted[p] ==> keep[p]
    requires |want| == |Where(keep)|
    requires forall k :: 0 <= k < |want| ==> want[k] == wanted[Where(keep)[k]]
    ensures |Where(want)| == 0 <==> forall p :: 0 <= p < |wanted| ==> !wanted[p]
    ensures |Where(want)| > 0 ==> wanted[Where(keep)[Where(want)[0]]]
    ensures |Where(want)| > 0 ==> forall p :: 0 <= p < Where(keep)[Where(want)[0]] ==> !wanted[p]
  {
    var ps := Where(keep);
    var ws := Where(want);
    WhereFirst(want);
    forall p | 0 <= p < |wanted| && wanted[p]
      ensures |ws| > 0 && ps[ws[0]] <= p
    {
      var k := WhereIndex(keep, p);
      assert want[k];
      assert ws[0] <= k;
      assert ws[0] == k || ps[ws[0]] < ps[k];
    }
    if |ws| > 0 {
      assert want[ws[0]];
    }
  }
}
