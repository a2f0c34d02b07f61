/** "The first position that qualifies", the shape of every `for ... break`
    scan and every `[x for x in xs if ...][0]` in the modelled code. */
module Search {
  import opened Outcomes

  /** The least `k` in `[lo, hi)` with `p(k)`, if there is one. */
  function FirstFrom(p: nat -> bool, lo: nat, hi: nat): (r: Option<nat>)
    requires lo <= hi
    ensures r.Some? ==> lo <= r.value < hi && p(r.value)
    ensures r.Some? ==> forall k :: lo <= k < r.value ==> !p(k)
    ensures r.None? <==> forall k :: lo <= k < hi ==> !p(k)
    decreases hi - lo
  {
    if lo == hi then None
    else if p(lo) then Some(lo)
    else FirstFrom(p, lo + 1, hi)
  }

  /** The position of the first occurrence of `x`, if any. */
  function IndexOf<T(==)>(xs: seq<T>, x: T): (r: Option<nat>)
    ensures r.Some? ==> r.value < |xs| && xs[r.value] == x
                        && forall k :: 0 <= k < r.value ==> xs[k] != x
    ensures r.None? <==> x !in xs
  {
    var p := (k: nat) => k < |xs| && xs[k] == x;
    assert forall k: nat :: p(k) <==> k < |xs| && xs[k] == x;
    FirstFrom(p, 0, |xs|)
  }

  /** The positions below `n` that satisfy `p`, in increasing order. */
  function Where(n: nat, p: nat -> bool): (r: seq<nat>)
    ensures forall k :: 0 <= k < |r| ==> r[k] < n && p(r[k])
    ensures forall i :: 0 <= i < n && p(i) ==> i in r
    ensures forall a, b :: 0 <= a < b < |r| ==> r[a] < r[b]
    decreases n
  {
    if n == 0 then [] else Where(n - 1, p) + if p(n - 1) then [n - 1] else []
  }

  /** The elements at the given positions, in the order given. */
  function Pick<T>(xs: seq<T>, rows: seq<nat>): (d: seq<T>)
    requires forall k :: 0 <= k < |rows| ==> rows[k] < |xs|
    ensures |d| == |rows| && forall k :: 0 <= k < |rows| ==> d[k] == xs[rows[k]]
  {
    seq(|rows|, k requires 0 <= k < |rows| => xs[rows[k]])
  }

  /** The positions of `xs` whose element satisfies `keep`, each once, in
      increasing order. */
  function Positions<T>(xs: seq<T>, keep: T -> bool): (r: seq<nat>)
    ensures forall k :: 0 <= k < |r| ==> r[k] < |xs| && keep(xs[r[k]])
    ensures forall i :: 0 <= i < |xs| && keep(xs[i]) ==> i in r
    ensures forall a, b :: 0 <= a < b < |r| ==> r[a] < r[b]
  {
    if |xs| == 0 then []
    else Positions(xs[..|xs| - 1], keep) + if keep(xs[|xs| - 1]) then [|xs| - 1] else []
  }

  /** `[x for x in xs if keep(x)]`: the elements that satisfy `keep`, in
      their order in `xs`, each occurrence kept once. */
  function Kept<T>(xs: seq<T>, keep: T -> bool): seq<T> {
    Pick(xs, Positions(xs, keep))
  }

  /** Keeping over a longer sequence keeps what it kept before, then the
      new last element when it qualifies. */
  lemma KeptSnoc<T>(xs: seq<T>, keep: T -> bool)
    requires |xs| > 0
    ensures var front, last := xs[..|xs| - 1], xs[|xs| - 1];
            Kept(xs, keep) == Kept(front, keep) + if keep(last) then [last] else []
  {
    var front, last := xs[..|xs| - 1], xs[|xs| - 1];
    var p := Positions(front, keep);
    assert forall k :: 0 <= k < |p| ==> Pick(xs, Positions(xs, keep))[k] == front[p[k]];
  }
}
