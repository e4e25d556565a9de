/** The entry point of the Lee & Richards calculation (sasalib_lee_richards
    in src/sasa_lr.c): initialisation, the slice range, the serial slice
    loop, and the split of the slices over threads with the final
    reduction. */
module Driver {
  import opened Geometry
  import opened Contacts
  import opened Slices

  /** The two return values the calculation can give. */
  datatype Status = Success | Warn

  function Ceil(x: real): int
  {
    -((-x).Floor)
  }

  /** The slab radii: every atom radius grown by the probe radius. */
  function Grown(atomRadii: seq<real>, probe: real): (radii: seq<real>)
    ensures |radii| == |atomRadii|
  {
    seq(|atomRadii|, i requires 0 <= i < |atomRadii| => atomRadii[i] + probe)
  }

  /** The highest centre among the first k atoms, starting from -1e50. */
  function TopZ(xyz: seq<Coord>, k: nat): real
    requires k <= |xyz|
  {
    if k == 0 then -1e50 else Max(xyz[k - 1].z, TopZ(xyz, k - 1))
  }

  /** The lowest centre among the first k atoms, starting from 1e50. */
  function BottomZ(xyz: seq<Coord>, k: nat): real
    requires k <= |xyz|
  {
    if k == 0 then 1e50 else Min(xyz[k - 1].z, BottomZ(xyz, k - 1))
  }

  /** The largest of the first k radii, starting from 0. */
  function TopR(radii: seq<real>, k: nat): real
    requires k <= |radii|
  {
    if k == 0 then 0.0 else Max(radii[k - 1], TopR(radii, k - 1))
  }

  /** The three folds of the initialisation loop bound every atom and are
      each either their start value or the value of some atom. */
  lemma {:induction false} Extent(xyz: seq<Coord>, radii: seq<real>, k: nat)
    requires k <= |xyz| && k <= |radii|
    ensures forall i :: 0 <= i < k ==> BottomZ(xyz, k) <= xyz[i].z <= TopZ(xyz, k) && radii[i] <= TopR(radii, k)
    ensures TopZ(xyz, k) == -1e50 || exists i :: 0 <= i < k && TopZ(xyz, k) == xyz[i].z
    ensures BottomZ(xyz, k) == 1e50 || exists i :: 0 <= i < k && BottomZ(xyz, k) == xyz[i].z
    ensures TopR(radii, k) == 0.0 || exists i :: 0 <= i < k && TopR(radii, k) == radii[i]
  {
    if k > 0 {
      Extent(xyz, radii, k - 1);
    }
  }

  /** Where the first slice lies: half a slab above the lowest atom bottom. */
  function Lower(xyz: seq<Coord>, radii: seq<real>, delta: real): real
    requires |radii| == |xyz|
  {
    BottomZ(xyz, |xyz|) - TopR(radii, |radii|) + 0.5 * delta
  }

  /** Where the slices end: the highest atom top. */
  function Upper(xyz: seq<Coord>, radii: seq<real>): real
    requires |radii| == |xyz|
  {
    TopZ(xyz, |xyz|) + TopR(radii, |radii|)
  }

  /** The height of step k of a loop that starts at z0 and adds delta. */
  function Height(z0: real, delta: real, k: int): real
  {
    z0 + k as real * delta
  }

  /** Step k + 1 is one delta above step k, and a loop restarted at step lo
      visits the later steps of the original. */
  lemma HeightShift(z0: real, delta: real, lo: int, k: int)
    ensures Height(z0, delta, k) + delta == Height(z0, delta, k + 1)
    ensures Height(Height(z0, delta, lo), delta, k) == Height(z0, delta, lo + k)
  {
  }

  /** How often the loop `for (z = z0; z < zEnd; z += delta)` runs. */
  function Steps(z0: real, zEnd: real, delta: real): nat
    requires delta > 0.0
  {
    if z0 < zEnd then
      var x := (zEnd - z0) / delta;
      assert x * delta == zEnd - z0;
      assert x > 0.0;
      Ceil(x)
    else 0
  }

  lemma MulMonotone(a: real, b: real, delta: real)
    requires delta > 0.0 && a <= b
    ensures a * delta <= b * delta
  {
  }

  lemma MulStrict(a: real, b: real, delta: real)
    requires delta > 0.0
    ensures a < b <==> a * delta < b * delta
  {
    if a < b {
      assert (b - a) * delta > 0.0;
    } else {
      assert (a - b) * delta >= 0.0;
    }
  }

  /** The loop visits exactly the heights z0 + k * delta that lie below
      zEnd. */
  lemma StepsSpec(z0: real, zEnd: real, delta: real, k: nat)
    requires delta > 0.0
    ensures k < Steps(z0, zEnd, delta) <==> Height(z0, delta, k) < zEnd
  {
    if z0 < zEnd {
      var x := (zEnd - z0) / delta;
      assert x * delta == zEnd - z0;
      MulStrict(k as real, x, delta);
    } else {
      MulMonotone(0.0, k as real, delta);
    }
  }

  /** A count s of steps is the loop's count when step s - 1 is still
      below zEnd and step s is not. */
  lemma StepsIs(z0: real, zEnd: real, delta: real, s: nat)
    requires delta > 0.0
    requires s == 0 || Height(z0, delta, s - 1) < zEnd
    requires Height(z0, delta, s) >= zEnd
    ensures Steps(z0, zEnd, delta) == s
  {
    StepsSpec(z0, zEnd, delta, s);
    if s > 0 {
      StepsSpec(z0, zEnd, delta, s - 1);
    }
  }

  /** The heights of the loop `for (z = z0; z < zEnd; z += delta)`. */
  function Heights(z0: real, zEnd: real, delta: real): (h: seq<real>)
    requires delta > 0.0
    ensures |h| == Steps(z0, zEnd, delta)
  {
    seq(Steps(z0, zEnd, delta), k requires 0 <= k => Height(z0, delta, k))
  }

  /** What every atom gained over a sequence of slices. */
  function Total(gains: seq<seq<real>>, a: nat): real
    requires forall k :: 0 <= k < |gains| ==> a < |gains[k]|
  {
    if |gains| == 0 then 0.0 else Total(gains[..|gains| - 1], a) + gains[|gains| - 1][a]
  }

  /** The total over two runs of slices is the sum of their totals. */
  lemma {:induction false} TotalAppend(g: seq<seq<real>>, h: seq<seq<real>>, a: nat)
    requires forall k :: 0 <= k < |g| ==> a < |g[k]|
    requires forall k :: 0 <= k < |h| ==> a < |h[k]|
    ensures Total(g + h, a) == Total(g, a) + Total(h, a)
  {
    if |h| > 0 {
      assert (g + h)[..|g + h| - 1] == g + h[..|h| - 1];
      TotalAppend(g, h[..|h| - 1], a);
    } else {
      assert g + h == g;
    }
  }

  /** Slice k was cut at heights[k], has exposed arcs arcs[k] and added
      gains[k] to the atoms, as AddSliceArea promises. */
  ghost predicate Computed(m: Libm, xyz: seq<Coord>, radii: seq<real>, nb: seq<seq<nat>>, nn: seq<nat>, delta: real,
                           heights: seq<real>, arcs: seq<seq<real>>, gains: seq<seq<real>>)
    requires |radii| == |xyz| && ContactShape(|xyz|, nb, nn) && SqrtSound(m)
  {
    |arcs| == |heights| && |gains| == |heights| &&
    (forall k :: 0 <= k < |gains| ==> |gains[k]| == |xyz|) &&
    forall k :: 0 <= k < |heights| ==> SliceDone(m, xyz, radii, nb, nn, delta, heights, arcs, gains, k)
  }

  /** Slice k of a run meets the promises of AddSliceArea. */
  ghost predicate SliceDone(m: Libm, xyz: seq<Coord>, radii: seq<real>, nb: seq<seq<nat>>, nn: seq<nat>, delta: real,
                            heights: seq<real>, arcs: seq<seq<real>>, gains: seq<seq<real>>, k: nat)
    requires |radii| == |xyz| && ContactShape(|xyz|, nb, nn) && SqrtSound(m)
  {
    k < |heights| && k < |arcs| && k < |gains| &&
    SliceAdds(m, xyz, radii, nb, nn, heights[k], delta, arcs[k], gains[k])
  }

  /** The claim sasa_exposed_arcs asserts holds on every slice of the range. */
  ghost predicate RegularRange(m: Libm, xyz: seq<Coord>, radii: seq<real>, nb: seq<seq<nat>>, nn: seq<nat>,
                               z0: real, zEnd: real, delta: real)
    requires |radii| == |xyz| && ContactShape(|xyz|, nb, nn) && SqrtSound(m) && delta > 0.0
  {
    forall k :: 0 <= k < Steps(z0, zEnd, delta) ==> RegularAt(m, xyz, radii, nb, nn, z0, delta, k)
  }

  /** The claim sasa_exposed_arcs asserts holds on step k of a slice loop. */
  ghost predicate RegularAt(m: Libm, xyz: seq<Coord>, radii: seq<real>, nb: seq<seq<nat>>, nn: seq<nat>,
                            z0: real, delta: real, k: nat)
    requires |radii| == |xyz| && ContactShape(|xyz|, nb, nn) && SqrtSound(m)
  {
    SliceRegular(m, xyz, radii, nb, nn, Height(z0, delta, k))
  }

  /** The slice loop of sasalib_lee_richards (src/sasa_lr.c:151-153) and of
      sasa_lr_thread (src/sasa_lr.c:205-207): one slice at each height of
      the range, each adding its gains to sasa. */
  method SliceLoop(m: Libm, xyz: seq<Coord>, radii: seq<real>, nb: seq<seq<nat>>, nn: seq<nat>,
                   z0: real, zEnd: real, delta: real, sasa: array<real>)
      returns (ghost heights: seq<real>, ghost arcs: seq<seq<real>>, ghost gains: seq<seq<real>>)
    requires |radii| == |xyz| == sasa.Length && ContactShape(|xyz|, nb, nn) && SqrtSound(m) && delta > 0.0
    requires RegularRange(m, xyz, radii, nb, nn, z0, zEnd, delta)
    modifies sasa
    ensures heights == Heights(z0, zEnd, delta)
    ensures Computed(m, xyz, radii, nb, nn, delta, heights, arcs, gains)
    ensures forall a :: 0 <= a < |xyz| ==> sasa[a] == old(sasa[a]) + Total(gains, a)
  {
    heights, arcs, gains := [], [], [];
    ghost var k: nat := 0;
    var z := z0;
    while z < zEnd
      invariant z == Height(z0, delta, k) && k <= Steps(z0, zEnd, delta)
      invariant heights == Heights(z0, zEnd, delta)[..k]
      invariant Computed(m, xyz, radii, nb, nn, delta, heights, arcs, gains)
      invariant forall a :: 0 <= a < |xyz| ==> sasa[a] == old(sasa[a]) + Total(gains, a)
      decreases Steps(z0, zEnd, delta) - k
    {
      StepsSpec(z0, zEnd, delta, k);
      assert RegularAt(m, xyz, radii, nb, nn, z0, delta, k);
      ghost var arc: seq<real>, gain: seq<real>;
      arc, gain := AddSliceArea(m, z, xyz, radii, nb, nn, delta, sasa);
      assert SliceDone(m, xyz, radii, nb, nn, delta, [z], [arc], [gain], 0);
      ComputedAppend(m, xyz, radii, nb, nn, delta, heights, arcs, gains, [z], [arc], [gain]);
      forall a | 0 <= a < |xyz|
        ensures sasa[a] == old(sasa[a]) + Total(gains + [gain], a)
      {
        TotalAppend(gains, [gain], a);
      }
      heights, arcs, gains := heights + [z], arcs + [arc], gains + [gain];
      HeightShift(z0, delta, 0, k);
      z := z + delta;
      k := k + 1;
    }
    StepsSpec(z0, zEnd, delta, k);
  }

  /** The slice count of src/sasa_lr.c:166, rounded up. */
  function SliceCount(z0: real, zEnd: real, delta: real): int
    requires delta > 0.0
  {
    Ceil((zEnd - z0) / delta)
  }

  /** C integer division, which truncates toward zero. */
  function CDiv(a: int, b: int): int
    requires b > 0
  {
    if a >= 0 then a / b else -((-a) / b)
  }

  /** The first global slice index of thread t, for nSlices slices over
      nThreads threads. */
  function TileLo(nSlices: int, nThreads: int, t: nat): nat
    requires nThreads > 0
  {
    if nSlices > 0 then t * (nSlices / nThreads) else 0
  }

  /** One past the last global slice index of thread t: the last thread
      takes the remainder. */
  function TileHi(nSlices: int, nThreads: int, t: nat): nat
    requires nThreads > 0
  {
    if nSlices <= 0 then 0
    else if t < nThreads - 1 then (t + 1) * (nSlices / nThreads)
    else nSlices
  }

  /** The tiles partition the slice indices: they start at 0, each ends
      where the next begins, and the last ends at the slice count. */
  lemma TilesPartition(nSlices: int, nThreads: int, t: nat)
    requires nThreads > 0 && t < nThreads
    ensures TileLo(nSlices, nThreads, 0) == 0
    ensures TileLo(nSlices, nThreads, t) <= TileHi(nSlices, nThreads, t)
    ensures t < nThreads - 1 ==> TileHi(nSlices, nThreads, t) == TileLo(nSlices, nThreads, t + 1)
    ensures TileHi(nSlices, nThreads, nThreads - 1) == if nSlices > 0 then nSlices else 0
  {
    if nSlices > 0 {
      var q := nSlices / nThreads;
      assert q * nThreads <= nSlices;
      MulLe(t, nThreads - 1, q);
      assert (nThreads - 1) * q <= q * nThreads;
    }
  }

  lemma MulLe(a: nat, b: nat, q: nat)
    requires a <= b
    ensures a * q <= b * q
  {
  }

  /** How many slices the threads before thread t cut. */
  function TilesDone(nSlices: int, nThreads: int, t: nat): nat
    requires nThreads > 0
  {
    if t == 0 then 0 else TileHi(nSlices, nThreads, t - 1)
  }

  /** Where thread t starts: src/sasa_lr.c:173. */
  function ThreadStart(z0: real, delta: real, perThread: int, t: nat): real
  {
    Height(z0, delta, t * perThread)
  }

  /** Where thread t stops: src/sasa_lr.c:174-178. */
  function ThreadEnd(z0: real, zEnd: real, delta: real, perThread: int, nThreads: int, t: nat): real
  {
    if t < nThreads - 1 then Height(ThreadStart(z0, delta, perThread, t), delta, perThread) else zEnd
  }

  /** A loop started at step lo of another loop that runs hi - lo steps
      visits that loop's steps lo to hi. */
  lemma HeightsSlice(z0: real, zEnd: real, start: real, stop: real, delta: real, lo: nat, hi: nat)
    requires delta > 0.0 && lo <= hi <= Steps(z0, zEnd, delta)
    requires start == Height(z0, delta, lo) && Steps(start, stop, delta) == hi - lo
    ensures Heights(start, stop, delta) == Heights(z0, zEnd, delta)[lo..hi]
  {
    var h, g := Heights(start, stop, delta), Heights(z0, zEnd, delta)[lo..hi];
    forall k | 0 <= k < |h|
      ensures h[k] == g[k]
    {
      HeightShift(z0, delta, lo, k);
    }
  }

  /** The loop from z0 ends at zEnd after SliceCount steps
      when that count is positive, and runs no step otherwise. */
  lemma StepsCeil(z0: real, zEnd: real, delta: real)
    requires delta > 0.0
    ensures var nSlices := SliceCount(z0, zEnd, delta);
      Steps(z0, zEnd, delta) == if nSlices > 0 then nSlices else 0
    ensures SliceCount(z0, zEnd, delta) as real * delta >= zEnd - z0
  {
    var x := (zEnd - z0) / delta;
    assert x * delta == zEnd - z0;
    MulMonotone(x, Ceil(x) as real, delta);
    if z0 >= zEnd {
      MulStrict(0.0, x, delta);
    }
  }

  /** A thread other than the last one runs perThread steps. */
  lemma InnerThread(start: real, delta: real, perThread: int)
    requires delta > 0.0 && perThread >= 0
    ensures Steps(start, Height(start, delta, perThread), delta) == perThread
  {
    if perThread > 0 {
      HeightShift(start, delta, 0, perThread - 1);
    }
    StepsIs(start, Height(start, delta, perThread), delta, perThread);
  }

  /** With slices to cut, thread t runs exactly its tile. */
  lemma ThreadSlicesSome(z0: real, zEnd: real, delta: real, nThreads: int, t: nat)
    requires delta > 0.0 && nThreads > 1 && t < nThreads
    requires SliceCount(z0, zEnd, delta) > 0
    ensures var nSlices := SliceCount(z0, zEnd, delta);
      var perThread := CDiv(nSlices, nThreads);
      Steps(ThreadStart(z0, delta, perThread, t), ThreadEnd(z0, zEnd, delta, perThread, nThreads, t), delta)
        == TileHi(nSlices, nThreads, t) - TileLo(nSlices, nThreads, t)
  {
    var nSlices := SliceCount(z0, zEnd, delta);
    var perThread := CDiv(nSlices, nThreads);
    var lo, hi := TileLo(nSlices, nThreads, t), TileHi(nSlices, nThreads, t);
    var start, stop := ThreadStart(z0, delta, perThread, t), ThreadEnd(z0, zEnd, delta, perThread, nThreads, t);
    StepsCeil(z0, zEnd, delta);
    TilesPartition(nSlices, nThreads, t);
    var c := Steps(z0, zEnd, delta);
    assert lo == t * perThread;
    if t < nThreads - 1 {
      InnerThread(start, delta, perThread);
    } else {
      var s := c - lo;
      if s > 0 {
        StepsSpec(z0, zEnd, delta, c - 1);
        HeightShift(z0, delta, lo, s - 1);
      }
      StepsSpec(z0, zEnd, delta, c);
      HeightShift(z0, delta, lo, s);
      StepsIs(start, stop, delta, s);
    }
  }

  /** C division rounds a count of at most zero up, so the last tile of a
      nonpositive count starts at or above that count. */
  lemma CDivNonpositive(nSlices: int, nThreads: int)
    requires nSlices <= 0 && nThreads > 1
    ensures CDiv(nSlices, nThreads) <= 0 && (nThreads - 1) * CDiv(nSlices, nThreads) >= nSlices
  {
    var q := (-nSlices) / nThreads;
    assert q * nThreads <= -nSlices;
    assert (nThreads - 1) * -q == -(q * nThreads) + q;
  }

  /** Without slices to cut, no thread runs a step: the last thread starts
      at or above zEnd because C division rounds a negative count up. */
  lemma ThreadSlicesNone(z0: real, zEnd: real, delta: real, nThreads: int, t: nat)
    requires delta > 0.0 && nThreads > 1 && t < nThreads
    requires SliceCount(z0, zEnd, delta) <= 0
    ensures var perThread := CDiv(SliceCount(z0, zEnd, delta), nThreads);
      Steps(ThreadStart(z0, delta, perThread, t), ThreadEnd(z0, zEnd, delta, perThread, nThreads, t), delta) == 0
  {
    var nSlices := SliceCount(z0, zEnd, delta);
    var perThread := CDiv(nSlices, nThreads);
    var start, stop := ThreadStart(z0, delta, perThread, t), ThreadEnd(z0, zEnd, delta, perThread, nThreads, t);
    StepsCeil(z0, zEnd, delta);
    CDivNonpositive(nSlices, nThreads);
    if t < nThreads - 1 {
      MulMonotone(perThread as real, 0.0, delta);
    } else {
      MulMonotone(nSlices as real, ((nThreads - 1) * perThread) as real, delta);
    }
    StepsIs(start, stop, delta, 0);
  }

  /** Thread t, running its own slice loop from ThreadStart to ThreadEnd,
      visits exactly the heights of the global slices TileLo to TileHi of
      the serial loop. */
  lemma ThreadSlices(z0: real, zEnd: real, delta: real, nThreads: int, t: nat)
    requires delta > 0.0 && nThreads > 1 && t < nThreads
    ensures var nSlices := SliceCount(z0, zEnd, delta);
      var perThread := CDiv(nSlices, nThreads);
      var lo, hi := TileLo(nSlices, nThreads, t), TileHi(nSlices, nThreads, t);
      lo <= hi <= Steps(z0, zEnd, delta) &&
      Heights(ThreadStart(z0, delta, perThread, t), ThreadEnd(z0, zEnd, delta, perThread, nThreads, t), delta)
        == Heights(z0, zEnd, delta)[lo..hi]
  {
    var nSlices := SliceCount(z0, zEnd, delta);
    var perThread := CDiv(nSlices, nThreads);
    var lo, hi := TileLo(nSlices, nThreads, t), TileHi(nSlices, nThreads, t);
    StepsCeil(z0, zEnd, delta);
    TilesPartition(nSlices, nThreads, t);
    TilesPartition(nSlices, nThreads, nThreads - 1);
    if nSlices > 0 {
      ThreadSlicesSome(z0, zEnd, delta, nThreads, t);
      assert hi <= nSlices by {
        if t < nThreads - 1 {
          TileMono(nSlices, nThreads, t + 1, nThreads - 1);
        }
      }
      assert TileLo(nSlices, nThreads, t) == t * perThread;
      HeightsSlice(z0, zEnd, ThreadStart(z0, delta, perThread, t), ThreadEnd(z0, zEnd, delta, perThread, nThreads, t),
                   delta, lo, hi);
    } else {
      ThreadSlicesNone(z0, zEnd, delta, nThreads, t);
    }
  }

  /** Later tiles start later. */
  lemma TileMono(nSlices: int, nThreads: int, t: nat, u: nat)
    requires nThreads > 0 && t <= u < nThreads
    ensures TileLo(nSlices, nThreads, t) <= TileLo(nSlices, nThreads, u)
  {
    if nSlices > 0 {
      MulLe(t, u, nSlices / nThreads);
    }
  }

  /** The reduction of src/sasa_lr.c:194-199: every per-thread area is
      added to the atom's total. */
  method Reduce(sasa: array<real>, parts: seq<seq<real>>)
    requires forall t :: 0 <= t < |parts| ==> |parts[t]| == sasa.Length
    modifies sasa
    ensures forall a :: 0 <= a < sasa.Length ==> sasa[a] == old(sasa[a]) + Total(parts, a)
  {
    for t := 0 to |parts|
      invariant forall a :: 0 <= a < sasa.Length ==> sasa[a] == old(sasa[a]) + Total(parts[..t], a)
    {
      assert parts[..t + 1][..t] == parts[..t];
      for i := 0 to sasa.Length
        invariant forall a :: 0 <= a < i ==> sasa[a] == old(sasa[a]) + Total(parts[..t + 1], a)
        invariant forall a :: i <= a < sasa.Length ==> sasa[a] == old(sasa[a]) + Total(parts[..t], a)
      {
        sasa[i] := sasa[i] + parts[t][i];
      }
    }
    assert parts[..|parts|] == parts;
  }

  /** Two runs of computed slices, one after the other, are computed. */
  lemma ComputedAppend(m: Libm, xyz: seq<Coord>, radii: seq<real>, nb: seq<seq<nat>>, nn: seq<nat>, delta: real,
                       h1: seq<real>, a1: seq<seq<real>>, g1: seq<seq<real>>,
                       h2: seq<real>, a2: seq<seq<real>>, g2: seq<seq<real>>)
    requires |radii| == |xyz| && ContactShape(|xyz|, nb, nn) && SqrtSound(m)
    requires Computed(m, xyz, radii, nb, nn, delta, h1, a1, g1)
    requires Computed(m, xyz, radii, nb, nn, delta, h2, a2, g2)
    ensures Computed(m, xyz, radii, nb, nn, delta, h1 + h2, a1 + a2, g1 + g2)
  {
    forall k | 0 <= k < |h1 + h2|
      ensures SliceDone(m, xyz, radii, nb, nn, delta, h1 + h2, a1 + a2, g1 + g2, k)
    {
      if k < |h1| {
        assert SliceDone(m, xyz, radii, nb, nn, delta, h1, a1, g1, k);
      } else {
        var j := k - |h1|;
        assert SliceDone(m, xyz, radii, nb, nn, delta, h2, a2, g2, j);
        assert (h1 + h2)[k] == h2[j] && (a1 + a2)[k] == a2[j] && (g1 + g2)[k] == g2[j];
      }
    }
  }

  /** One thread of sasa_lr_do_threads (src/sasa_lr.c:169-178 and
      sasa_lr_thread, src/sasa_lr.c:202-209): a zeroed area array of its
      own, filled by the slice loop over the thread's tile. */
  method RunThread(m: Libm, nThreads: int, t: nat, xyz: seq<Coord>, radii: seq<real>, nb: seq<seq<nat>>, nn: seq<nat>,
                   z0: real, zEnd: real, delta: real, perThread: int)
      returns (part: seq<real>, ghost heights: seq<real>, ghost arcs: seq<seq<real>>, ghost gains: seq<seq<real>>)
    requires nThreads > 1 && t < nThreads
    requires |radii| == |xyz| && ContactShape(|xyz|, nb, nn) && SqrtSound(m) && delta > 0.0
    requires perThread == CDiv(SliceCount(z0, zEnd, delta), nThreads)
    requires RegularRange(m, xyz, radii, nb, nn, z0, zEnd, delta)
    ensures var nSlices := SliceCount(z0, zEnd, delta);
      var lo, hi := TileLo(nSlices, nThreads, t), TileHi(nSlices, nThreads, t);
      lo <= hi <= Steps(z0, zEnd, delta) && heights == Heights(z0, zEnd, delta)[lo..hi]
    ensures Computed(m, xyz, radii, nb, nn, delta, heights, arcs, gains)
    ensures |part| == |xyz| && forall a :: 0 <= a < |xyz| ==> part[a] == Total(gains, a)
  {
    var start := ThreadStart(z0, delta, perThread, t);
    var stop := ThreadEnd(z0, zEnd, delta, perThread, nThreads, t);
    ThreadSlices(z0, zEnd, delta, nThreads, t);
    ghost var all := Heights(z0, zEnd, delta);
    ghost var lo := TileLo(SliceCount(z0, zEnd, delta), nThreads, t);
    forall k | 0 <= k < Steps(start, stop, delta)
      ensures RegularAt(m, xyz, radii, nb, nn, start, delta, k)
    {
      assert Height(start, delta, k) == all[lo + k];
      assert RegularAt(m, xyz, radii, nb, nn, z0, delta, lo + k);
    }
    var area := new real[|xyz|](_ => 0.0);
    heights, arcs, gains := SliceLoop(m, xyz, radii, nb, nn, start, stop, delta, area);
    part := area[..];
  }

  /** sasa_lr_do_threads (src/sasa_lr.c:160-200): splits the slice range
      into one tile per thread, lets each thread add its slices to an area
      array of its own, and adds those arrays to sasa. The threads write
      disjoint arrays, so they are run one after the other here. Together
      they cut the molecule at the same heights as the serial loop. */
  method DoThreads(m: Libm, nThreads: int, xyz: seq<Coord>, radii: seq<real>, nb: seq<seq<nat>>, nn: seq<nat>,
                   z0: real, zEnd: real, delta: real, sasa: array<real>)
      returns (ghost heights: seq<real>, ghost arcs: seq<seq<real>>, ghost gains: seq<seq<real>>)
    requires nThreads > 1
    requires |radii| == |xyz| == sasa.Length && ContactShape(|xyz|, nb, nn) && SqrtSound(m) && delta > 0.0
    requires RegularRange(m, xyz, radii, nb, nn, z0, zEnd, delta)
    modifies sasa
    ensures heights == Heights(z0, zEnd, delta)
    ensures Computed(m, xyz, radii, nb, nn, delta, heights, arcs, gains)
    ensures forall a :: 0 <= a < |xyz| ==> sasa[a] == old(sasa[a]) + Total(gains, a)
  {
    var n := |xyz|;
    var nSlices := SliceCount(z0, zEnd, delta);
    var perThread := CDiv(nSlices, nThreads);
    var parts: seq<seq<real>> := [];
    heights, arcs, gains := [], [], [];
    ghost var all := Heights(z0, zEnd, delta);
    for t := 0 to nThreads
      invariant |parts| == t && forall u :: 0 <= u < t ==> |parts[u]| == n
      invariant TilesDone(nSlices, nThreads, t) <= |all| && heights == all[..TilesDone(nSlices, nThreads, t)]
      invariant Computed(m, xyz, radii, nb, nn, delta, heights, arcs, gains)
      invariant forall a :: 0 <= a < n ==> Total(gains, a) == Total(parts, a)
      invariant unchanged(sasa)
    {
      var part;
      ghost var h: seq<real>, ar: seq<seq<real>>, g: seq<seq<real>>;
      part, h, ar, g := RunThread(m, nThreads, t, xyz, radii, nb, nn, z0, zEnd, delta, perThread);
      ghost var lo, hi := TileLo(nSlices, nThreads, t), TileHi(nSlices, nThreads, t);
      TilesPartition(nSlices, nThreads, t);
      if t > 0 {
        TilesPartition(nSlices, nThreads, t - 1);
      }
      assert lo == TilesDone(nSlices, nThreads, t);
      ComputedAppend(m, xyz, radii, nb, nn, delta, heights, arcs, gains, h, ar, g);
      forall a | 0 <= a < n
        ensures Total(gains + g, a) == Total(parts + [part], a)
      {
        TotalAppend(gains, g, a);
        assert (parts + [part])[..t] == parts;
      }
      assert all[..hi] == all[..lo] + all[lo..hi];
      parts := parts + [part];
      heights, arcs, gains := heights + h, arcs + ar, gains + g;
    }
    TilesPartition(nSlices, nThreads, nThreads - 1);
    assert heights == all;
    Reduce(sasa, parts);
  }

  /** The contact lists sasa_get_contacts builds, as values. */
  function ContactNb(xyz: seq<Coord>, radii: seq<real>): (nb: seq<seq<nat>>)
    requires |radii| == |xyz|
    ensures |nb| == |xyz|
  {
    seq(|xyz|, k requires 0 <= k < |xyz| => Neighbours(xyz, radii, k))
  }

  function ContactNn(xyz: seq<Coord>, radii: seq<real>): (nn: seq<nat>)
    requires |radii| == |xyz|
    ensures |nn| == |xyz|
  {
    seq(|xyz|, k requires 0 <= k < |xyz| => |Neighbours(xyz, radii, k)|)
  }

  /** The contact lists have the shape the slice code relies on. */
  lemma ContactsShaped(xyz: seq<Coord>, radii: seq<real>)
    requires |radii| == |xyz|
    ensures ContactShape(|xyz|, ContactNb(xyz, radii), ContactNn(xyz, radii))
  {
    var nb, nn := ContactNb(xyz, radii), ContactNn(xyz, radii);
    forall i | 0 <= i < |xyz|
      ensures nn[i] <= |nb[i]| && Increasing(nb[i][..nn[i]])
      ensures forall q :: 0 <= q < nn[i] ==> nb[i][q] < |xyz| && nb[i][q] != i
    {
      assert nb[i][..nn[i]] == nb[i];
      NeighboursShape(xyz, radii, i, i);
      UptoIncreasing(xyz, radii, i, |xyz|);
    }
  }

  /** What sasa_exposed_arcs asserts holds in every slice of the run. */
  ghost predicate RegularRun(m: Libm, xyz: seq<Coord>, atomRadii: seq<real>, probe: real, delta: real)
    requires |atomRadii| == |xyz| && SqrtSound(m) && delta > 0.0
  {
    var radii := Grown(atomRadii, probe);
    ContactsShaped(xyz, radii);
    RegularRange(m, xyz, radii, ContactNb(xyz, radii), ContactNn(xyz, radii),
                 Lower(xyz, radii, delta), Upper(xyz, radii), delta)
  }

  /** The initialisation loop of sasalib_lee_richards (src/sasa_lr.c:116-130):
      grows every radius by the probe, clears every area, and finds the
      slice range from the lowest and highest atom and the largest radius. */
  method Prepare(xyz: seq<Coord>, atomRadii: seq<real>, probe: real, delta: real, sasa: array<real>)
      returns (radii: seq<real>, minZ: real, maxZ: real)
    requires |atomRadii| == |xyz| == sasa.Length
    modifies sasa
    ensures radii == Grown(atomRadii, probe)
    ensures minZ == Lower(xyz, radii, delta) && maxZ == Upper(xyz, radii)
    ensures forall a :: 0 <= a < sasa.Length ==> sasa[a] == 0.0
  {
    var n := |xyz|;
    ghost var R := Grown(atomRadii, probe);
    var rs := new real[n];
    var maxR;
    maxZ, minZ, maxR := -1e50, 1e50, 0.0;
    for i := 0 to n
      invariant rs[..i] == R[..i]
      invariant maxZ == TopZ(xyz, i) && minZ == BottomZ(xyz, i) && maxR == TopR(R, i)
      invariant forall a :: 0 <= a < i ==> sasa[a] == 0.0
    {
      rs[i] := atomRadii[i] + probe;
      var z, r := xyz[i].z, rs[i];
      maxZ := if z > maxZ then z else maxZ;
      minZ := if z < minZ then z else minZ;
      sasa[i] := 0.0;
      maxR := if r > maxR then r else maxR;
    }
    radii := rs[..];
    assert radii == R[..n] == R;
    minZ := minZ - maxR;
    maxZ := maxZ + maxR;
    minZ := minZ + 0.5 * delta;
  }

  /** Every slice of a run was computed on the contacts of the grown radii. */
  ghost predicate RunComputed(m: Libm, xyz: seq<Coord>, atomRadii: seq<real>, probe: real, delta: real,
                              heights: seq<real>, arcs: seq<seq<real>>, gains: seq<seq<real>>)
    requires |atomRadii| == |xyz| && SqrtSound(m)
  {
    var radii := Grown(atomRadii, probe);
    ContactsShaped(xyz, radii);
    Computed(m, xyz, radii, ContactNb(xyz, radii), ContactNn(xyz, radii), delta, heights, arcs, gains)
  }

  /** sasalib_lee_richards (src/sasa_lr.c:94-157). Empty coordinates give a
      warning and leave sasa alone. Otherwise every area starts at 0, the
      radii are grown by the probe, the contacts are found, and the slices
      of the range are cut, serially or over nThreads threads; a build
      without threads asked for several warns and runs serially; a thread
      count below 1 cuts no slice. Every area is the sum of its gains. */
  method LeeRichards(m: Libm, sasa: array<real>, xyz: seq<Coord>, atomRadii: seq<real>, probe: real,
                     delta: real, nThreads: int, pthreads: bool)
      returns (status: Status, ghost heights: seq<real>, ghost arcs: seq<seq<real>>, ghost gains: seq<seq<real>>)
    requires |atomRadii| == |xyz| == sasa.Length && SqrtSound(m) && delta > 0.0
    requires RegularRun(m, xyz, atomRadii, probe, delta)
    modifies sasa
    ensures |xyz| == 0 ==> status == Warn && heights == []
    ensures |xyz| > 0 ==> status == (if nThreads > 1 && !pthreads then Warn else Success)
    ensures |xyz| > 0 ==>
      (var radii := Grown(atomRadii, probe);
       heights == if nThreads >= 1 then Heights(Lower(xyz, radii, delta), Upper(xyz, radii), delta) else [])
    ensures RunComputed(m, xyz, atomRadii, probe, delta, heights, arcs, gains)
    ensures forall a :: 0 <= a < |xyz| ==> sasa[a] == Total(gains, a)
  {
    var n := |xyz|;
    ghost var R := Grown(atomRadii, probe);
    ContactsShaped(xyz, R);
    heights, arcs, gains := [], [], [];
    if n == 0 {
      return Warn, heights, arcs, gains;
    }
    var radii, minZ, maxZ := Prepare(xyz, atomRadii, probe, delta, sasa);
    var nb := new seq<nat>[n];
    var nn := new nat[n];
    GetContacts(xyz, radii, nb, nn);
    var nbs, nns := nb[..], nn[..];
    assert nbs == ContactNb(xyz, R) && nns == ContactNn(xyz, R);
    assert RegularRange(m, xyz, radii, nbs, nns, minZ, maxZ, delta);
    status := Success;
    var threads := nThreads;
    if threads > 1 {
      if pthreads {
        heights, arcs, gains := DoThreads(m, threads, xyz, radii, nbs, nns, minZ, maxZ, delta, sasa);
      } else {
        status := Warn;
        threads := 1;
      }
    }
    if threads == 1 {
      heights, arcs, gains := SliceLoop(m, xyz, radii, nbs, nns, minZ, maxZ, delta, sasa);
    }
  }
}
