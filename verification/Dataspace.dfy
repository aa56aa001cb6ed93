/** Dataspaces: an extent with a selection of its points in row-major order, and the HDF5
    operations on them that the connector calls. */
module Dataspace {
  import opened Grid
  import opened Runs
  import opened IoPlan

  /** The selected points in row-major order: a finite set of points in its canonical form. */
  datatype Space = Space(dims: seq<nat>, pts: seq<Coord>) {
    ghost predicate Valid() {
      Sorted(pts) && forall i :: 0 <= i < |pts| ==> InExtent(pts[i], dims)
    }
  }

  /** Every point has n coordinates. */
  predicate OfRank(pts: seq<Coord>, n: nat) {
    forall i :: 0 <= i < |pts| ==> |pts[i]| == n
  }

  // ----- intersection with a box -----

  /** The selected points inside a box, in order (H5S_SELECT_AND with one block). */
  function Within(pts: seq<Coord>, start: Coord, dims: seq<nat>): (r: seq<Coord>)
    ensures |r| <= |pts|
  {
    if pts == [] then []
    else (if InBox(pts[0], start, dims) then [pts[0]] else []) + Within(pts[1..], start, dims)
  }

  lemma {:induction false} WithinMembers(pts: seq<Coord>, start: Coord, dims: seq<nat>, p: Coord)
    ensures p in Within(pts, start, dims) <==> p in pts && InBox(p, start, dims)
  {
    if pts != [] {
      WithinMembers(pts[1..], start, dims, p);
      assert p in pts <==> p == pts[0] || p in pts[1..];
    }
  }

  lemma {:induction false} WithinSorted(pts: seq<Coord>, start: Coord, dims: seq<nat>)
    requires Sorted(pts)
    ensures Sorted(Within(pts, start, dims))
  {
    if pts != [] {
      var rest := Within(pts[1..], start, dims);
      assert forall i, j :: 0 <= i < j < |pts[1..]| ==> pts[1..][i] == pts[i + 1] && pts[1..][j] == pts[j + 1];
      WithinSorted(pts[1..], start, dims);
      forall j | 0 <= j < |rest| ensures Less(pts[0], rest[j]) {
        WithinMembers(pts[1..], start, dims, rest[j]);
        var i :| 0 <= i < |pts[1..]| && pts[1..][i] == rest[j];
        assert pts[i + 1] == rest[j];
      }
    }
  }

  /** Is some selected point in the closed box from start to end (H5Shyper_intersect_block)? */
  predicate IntersectsBlock(pts: seq<Coord>, start: Coord, end: Coord) {
    exists i :: 0 <= i < |pts| && Between(start, pts[i], end)
  }

  predicate Between(start: Coord, p: Coord, end: Coord) {
    |p| == |start| == |end| && forall d :: 0 <= d < |p| ==> start[d] <= p[d] <= end[d]
  }

  // ----- moving a selection -----

  /** The selection moved back by a vector (H5Sselect_adjust_u and H5Shyper_adjust_s). */
  function Adjust(pts: seq<Coord>, delta: Coord): (r: seq<Coord>)
    requires OfRank(pts, |delta|)
    ensures |r| == |pts| && OfRank(r, |delta|)
  {
    seq(|pts|, i requires 0 <= i < |pts| => Sub(pts[i], delta))
  }

  lemma AdjustSorted(pts: seq<Coord>, delta: Coord)
    requires OfRank(pts, |delta|) && Sorted(pts)
    ensures Sorted(Adjust(pts, delta))
  {
    forall i, j | 0 <= i < j < |pts| ensures Less(Adjust(pts, delta)[i], Adjust(pts, delta)[j]) {
      SubOrder(pts[i], pts[j], delta);
    }
  }

  // ----- bounding box -----

  function LoAt(pts: seq<Coord>, n: nat, d: nat): (lo: int)
    requires pts != [] && OfRank(pts, n) && d < n
    ensures forall i :: 0 <= i < |pts| ==> lo <= pts[i][d]
    ensures exists i :: 0 <= i < |pts| && pts[i][d] == lo
  {
    var init, last := pts[..|pts| - 1], pts[|pts| - 1][d];
    assert pts[|pts| - 1][d] == last;
    if |pts| == 1 then last
    else
      var lo := LoAt(init, n, d);
      assert forall i :: 0 <= i < |init| ==> init[i] == pts[i];
      if last < lo then last else lo
  }

  function HiAt(pts: seq<Coord>, n: nat, d: nat): (hi: int)
    requires pts != [] && OfRank(pts, n) && d < n
    ensures forall i :: 0 <= i < |pts| ==> pts[i][d] <= hi
    ensures exists i :: 0 <= i < |pts| && pts[i][d] == hi
  {
    var init, last := pts[..|pts| - 1], pts[|pts| - 1][d];
    assert pts[|pts| - 1][d] == last;
    if |pts| == 1 then last
    else
      var hi := HiAt(init, n, d);
      assert forall i :: 0 <= i < |init| ==> init[i] == pts[i];
      if hi < last then last else hi
  }

  /** The two corners of the bounding box (H5Sget_select_bounds). */
  function Lo(pts: seq<Coord>, n: nat): (lo: Coord)
    requires pts != [] && OfRank(pts, n)
    ensures |lo| == n && forall i, d :: 0 <= i < |pts| && 0 <= d < n ==> lo[d] <= pts[i][d]
  {
    seq(n, d requires 0 <= d < n => LoAt(pts, n, d))
  }

  function Hi(pts: seq<Coord>, n: nat): (hi: Coord)
    requires pts != [] && OfRank(pts, n)
    ensures |hi| == n && forall i, d :: 0 <= i < |pts| && 0 <= d < n ==> pts[i][d] <= hi[d]
  {
    seq(n, d requires 0 <= d < n => HiAt(pts, n, d))
  }

  /** The bounding box is the smallest one: each of its sides touches a point. */
  lemma BoundsTouch(pts: seq<Coord>, n: nat, d: nat)
    requires pts != [] && OfRank(pts, n) && d < n
    ensures exists i :: 0 <= i < |pts| && pts[i][d] == Lo(pts, n)[d]
    ensures exists i :: 0 <= i < |pts| && pts[i][d] == Hi(pts, n)[d]
  {
    assert Lo(pts, n)[d] == LoAt(pts, n, d) && Hi(pts, n)[d] == HiAt(pts, n, d);
  }

  /** How far the file selection lies beyond the memory selection. */
  function Shift(file: Space, mem: Space): (delta: Coord)
    requires file.pts != [] && mem.pts != [] && |file.dims| == |mem.dims|
    requires OfRank(file.pts, |file.dims|) && OfRank(mem.pts, |mem.dims|)
    ensures |delta| == |file.dims|
  {
    Sub(Lo(file.pts, |file.dims|), Lo(mem.pts, |mem.dims|))
  }

  /** One selection is the other moved (H5Sselect_shape_same, for equal ranks). */
  predicate SameShape(file: Space, mem: Space)
    requires file.pts != [] && mem.pts != [] && |file.dims| == |mem.dims|
    requires OfRank(file.pts, |file.dims|) && OfRank(mem.pts, |mem.dims|)
  {
    Adjust(file.pts, Shift(file, mem)) == mem.pts
  }

  /** The points of b are those of a, in order, each moved back by v. */
  ghost predicate Moved(a: seq<Coord>, b: seq<Coord>, v: Coord) {
    && |a| == |b|
    && forall i :: 0 <= i < |a| ==>
      |a[i]| == |b[i]| == |v| && forall d :: 0 <= d < |v| ==> b[i][d] == a[i][d] - v[d]
  }

  /** The lowest coordinate moves with the points. */
  lemma LoMoves(a: seq<Coord>, b: seq<Coord>, v: Coord, d: nat)
    requires a != [] && Moved(a, b, v) && d < |v|
    ensures OfRank(a, |v|) && OfRank(b, |v|) && Lo(b, |v|)[d] == Lo(a, |v|)[d] - v[d]
  {
    var n := |v|;
    BoundsTouch(a, n, d);
    BoundsTouch(b, n, d);
    var i :| 0 <= i < |a| && a[i][d] == Lo(a, n)[d];
    var j :| 0 <= j < |b| && b[j][d] == Lo(b, n)[d];
    assert Lo(b, n)[d] <= b[i][d] == a[i][d] - v[d];
    assert Lo(a, n)[d] <= a[j][d] == b[j][d] + v[d];
  }

  /** Two selections have the same shape if and only if some vector moves one to the other. */
  lemma SameShapeIff(file: Space, mem: Space)
    requires file.pts != [] && mem.pts != [] && |file.dims| == |mem.dims|
    requires OfRank(file.pts, |file.dims|) && OfRank(mem.pts, |mem.dims|)
    ensures SameShape(file, mem) <==> exists v :: Moved(file.pts, mem.pts, v)
  {
    if SameShape(file, mem) {
      var v := Shift(file, mem);
      forall i | 0 <= i < |file.pts| ensures Sub(file.pts[i], v) == mem.pts[i] {
        assert Adjust(file.pts, v)[i] == mem.pts[i];
      }
      assert Moved(file.pts, mem.pts, v);
    }
    if v :| Moved(file.pts, mem.pts, v) {
      assert |file.pts[0]| == |v|;
      var shift := Shift(file, mem);
      forall d | 0 <= d < |v| ensures shift[d] == v[d] {
        LoMoves(file.pts, mem.pts, v, d);
      }
      assert shift == v;
      forall i | 0 <= i < |file.pts| ensures Adjust(file.pts, v)[i] == mem.pts[i] {
        assert Sub(file.pts[i], v) == mem.pts[i];
      }
    }
  }

  // ----- byte runs -----

  /** Where the elements of a selection start, in bytes. */
  function Starts(space: Space, typeSize: nat): (starts: seq<nat>)
    requires forall i :: 0 <= i < |space.pts| ==> InExtent(space.pts[i], space.dims)
    ensures |starts| == |space.pts|
  {
    seq(|space.pts|, i requires 0 <= i < |space.pts| => Linear(space.pts[i], space.dims) * typeSize)
  }

  /** The bytes of a list of elements, in order. */
  function ElementBytes(starts: seq<nat>, typeSize: nat): seq<nat> {
    if starts == [] then []
    else ElementBytes(starts[..|starts| - 1], typeSize) + Range(starts[|starts| - 1], typeSize)
  }

  lemma SumSnoc(init: seq<nat>, x: nat)
    ensures Sum(init + [x]) == Sum(init) + x
  {
    SumConcat(init, [x]);
  }

  /** What an iterator may hand out for elements that start at these bytes: any non-empty runs
      that hold the elements' bytes in order. Adjacent elements may be in one run or in two. */
  ghost predicate HandedOut(sel: Selection, starts: seq<nat>, typeSize: nat) {
    && sel.Valid()
    && Flatten(sel.runs) == ElementBytes(starts, typeSize)
    && Sum(sel.counts) == |starts|
  }

  lemma FlattenJoin(init: seq<Run>, r: Run, more: nat)
    ensures Flatten(init + [Run(r.off, r.len + more)]) == Flatten(init + [r]) + Range(r.off + r.len, more)
  {
    FlattenSnoc(init, r);
    FlattenSnoc(init, Run(r.off, r.len + more));
    assert Range(r.off, r.len + more) == Range(r.off, r.len) + Range(r.off + r.len, more);
  }

  lemma FlattenSnoc(init: seq<Run>, r: Run)
    ensures Flatten(init + [r]) == Flatten(init) + Range(r.off, r.len)
  {
    FlattenConcat(init, [r]);
    assert [r][1..] == [];
    assert Flatten([r]) == Range(r.off, r.len);
  }

  lemma ElementBytesSnoc(starts: seq<nat>, i: nat, typeSize: nat)
    requires i < |starts|
    ensures ElementBytes(starts[..i + 1], typeSize) == ElementBytes(starts[..i], typeSize) + Range(starts[i], typeSize)
  {
    assert starts[..i + 1][..i] == starts[..i];
  }

  /** One more element in a run of its own. */
  lemma NewRun(sel: Selection, starts: seq<nat>, i: nat, typeSize: nat)
    requires i < |starts| && typeSize > 0 && HandedOut(sel, starts[..i], typeSize)
    ensures HandedOut(Selection(sel.runs + [Run(starts[i], typeSize)], sel.counts + [1]), starts[..i + 1], typeSize)
  {
    FlattenSnoc(sel.runs, Run(starts[i], typeSize));
    SumSnoc(sel.counts, 1);
    ElementBytesSnoc(starts, i, typeSize);
  }

  /** One more element in the last run, which it continues. */
  lemma LongerRun(sel: Selection, starts: seq<nat>, i: nat, typeSize: nat, runs: seq<Run>, counts: seq<nat>, last: Run, c: nat)
    requires i < |starts| && typeSize > 0 && HandedOut(sel, starts[..i], typeSize)
    requires sel.runs == runs + [last] && sel.counts == counts + [c] && last.off + last.len == starts[i]
    ensures HandedOut(Selection(runs + [Run(last.off, last.len + typeSize)], counts + [c + 1]), starts[..i + 1], typeSize)
  {
    FlattenJoin(runs, last, typeSize);
    SumSnoc(counts, c);
    SumSnoc(counts, c + 1);
    ElementBytesSnoc(starts, i, typeSize);
    assert forall k :: 0 <= k < |runs| ==> runs[k] == sel.runs[k] && counts[k] == sel.counts[k];
  }

  /** The library's iterator over a selection: it joins adjacent elements into one run or not, as
      it likes. */
  method Iterate(starts: seq<nat>, typeSize: nat) returns (sel: Selection)
    requires typeSize > 0
    ensures HandedOut(sel, starts, typeSize)
  {
    sel := Selection([], []);
    assert HandedOut(sel, starts[..0], typeSize);
    hide *;
    for i := 0 to |starts|
      invariant |sel.runs| == |sel.counts| && HandedOut(sel, starts[..i], typeSize)
    {
      var m := |sel.runs| - 1;
      var join: bool := *;
      if join && m >= 0 && sel.runs[m].off + sel.runs[m].len == starts[i] {
        var runs, counts, last, c := sel.runs[..m], sel.counts[..m], sel.runs[m], sel.counts[m];
        LastApart(sel.runs);
        LastApart(sel.counts);
        LongerRun(sel, starts, i, typeSize, runs, counts, last, c);
        sel := Selection(runs + [Run(last.off, last.len + typeSize)], counts + [c + 1]);
      } else {
        NewRun(sel, starts, i, typeSize);
        sel := Selection(sel.runs + [Run(starts[i], typeSize)], sel.counts + [1]);
      }
    }
    assert starts[..|starts|] == starts;
  }

  lemma LastApart<T>(s: seq<T>)
    requires s != []
    ensures s == s[..|s| - 1] + [s[|s| - 1]]
  {
  }

  /** Byte b of element k is byte k * typeSize + b of the selection. */
  lemma {:induction false} ElementByte(starts: seq<nat>, typeSize: nat, k: nat, b: nat)
    requires k < |starts| && b < typeSize
    ensures |ElementBytes(starts, typeSize)| == |starts| * typeSize
    ensures 0 <= k * typeSize + b < |starts| * typeSize
    ensures ElementBytes(starts, typeSize)[k * typeSize + b] == starts[k] + b
  {
    var n := |starts| - 1;
    BytesLength(starts, typeSize);
    BytesLength(starts[..n], typeSize);
    ElementIndex(k, |starts|, b, typeSize);
    if k < n {
      ElementByte(starts[..n], typeSize, k, b);
    }
  }

  lemma ElementIndex(k: nat, n: nat, b: nat, typeSize: nat)
    requires k < n && b < typeSize
    ensures 0 <= k * typeSize + b < n * typeSize
  {
    ScaleOrder(k, n, typeSize);
  }

  lemma {:induction false} BytesLength(starts: seq<nat>, typeSize: nat)
    ensures |ElementBytes(starts, typeSize)| == |starts| * typeSize
  {
    if starts != [] {
      BytesLength(starts[..|starts| - 1], typeSize);
      ScaleSucc(|starts| - 1, typeSize);
    }
  }

  /** Elements follow each other without overlap. */
  ghost predicate Spaced(starts: seq<nat>, typeSize: nat) {
    forall i, j :: 0 <= i < j < |starts| ==> starts[i] + typeSize <= starts[j]
  }

  lemma StartsSpaced(space: Space, typeSize: nat)
    requires space.Valid()
    ensures Spaced(Starts(space, typeSize), typeSize)
  {
    var starts := Starts(space, typeSize);
    forall i, j | 0 <= i < j < |starts| ensures starts[i] + typeSize <= starts[j] {
      LinearMonotone(space.pts[i], space.pts[j], space.dims);
      ScaleOrder(Linear(space.pts[i], space.dims), Linear(space.pts[j], space.dims), typeSize);
    }
  }

  lemma {:induction false} SpacedBytesIncrease(starts: seq<nat>, typeSize: nat)
    requires Spaced(starts, typeSize)
    ensures forall i, j :: 0 <= i < j < |ElementBytes(starts, typeSize)| ==>
      ElementBytes(starts, typeSize)[i] < ElementBytes(starts, typeSize)[j]
    ensures starts != [] ==> forall i :: 0 <= i < |ElementBytes(starts, typeSize)| ==>
      ElementBytes(starts, typeSize)[i] < starts[|starts| - 1] + typeSize
  {
    if starts != [] {
      SpacedBytesIncrease(starts[..|starts| - 1], typeSize);
    }
  }

  // ----- all points of an extent -----

  function Prefix(i: int, pts: seq<Coord>): (r: seq<Coord>)
    ensures |r| == |pts|
  {
    seq(|pts|, k requires 0 <= k < |pts| => [i] + pts[k])
  }

  function Rows(n: nat, pts: seq<Coord>): seq<Coord> {
    if n == 0 then [] else Rows(n - 1, pts) + Prefix(n - 1, pts)
  }

  /** Every point of an extent in row-major order (H5S_ALL). */
  function AllPoints(dims: seq<nat>): seq<Coord> {
    if dims == [] then [[]] else Rows(dims[0], AllPoints(dims[1..]))
  }

  lemma {:induction false} RowsMembers(n: nat, pts: seq<Coord>, p: Coord)
    ensures p in Rows(n, pts) <==> p != [] && 0 <= p[0] < n && p[1..] in pts
  {
    if n > 0 {
      RowsMembers(n - 1, pts, p);
      var row := Prefix(n - 1, pts);
      if p in row {
        var k :| 0 <= k < |row| && row[k] == p;
        assert p[1..] == pts[k];
      }
      if p != [] && p[0] == n - 1 && p[1..] in pts {
        var k :| 0 <= k < |pts| && pts[k] == p[1..];
        assert row[k] == p;
      }
    }
  }

  lemma PrefixLess(i: int, a: Coord, j: int, b: Coord)
    requires |a| == |b| && (i < j || (i == j && Less(a, b)))
    ensures Less([i] + a, [j] + b)
  {
    if i < j {
      assert LessAt([i] + a, [j] + b, 0);
    } else {
      var k :| LessAt(a, b, k);
      assert ([i] + a)[..k + 1] == [i] + a[..k] && ([j] + b)[..k + 1] == [j] + b[..k];
      assert LessAt([i] + a, [j] + b, k + 1);
    }
  }

  lemma {:induction false} RowsSorted(n: nat, pts: seq<Coord>, rank: nat)
    requires Sorted(pts) && OfRank(pts, rank)
    ensures Sorted(Rows(n, pts))
  {
    if n > 0 {
      var above, row := Rows(n - 1, pts), Prefix(n - 1, pts);
      RowsSorted(n - 1, pts, rank);
      forall i, j | 0 <= i < j < |row| ensures Less(row[i], row[j]) {
        PrefixLess(n - 1, pts[i], n - 1, pts[j]);
      }
      forall i, j | 0 <= i < |above| && 0 <= j < |row| ensures Less(above[i], row[j]) {
        RowsMembers(n - 1, pts, above[i]);
        var a := above[i];
        var k :| 0 <= k < |pts| && pts[k] == a[1..];
        assert a == [a[0]] + a[1..];
        PrefixLess(a[0], a[1..], n - 1, pts[j]);
      }
    }
  }

  lemma {:induction false} AllPointsMembers(dims: seq<nat>, p: Coord)
    ensures p in AllPoints(dims) <==> InExtent(p, dims)
    decreases dims
  {
    if dims != [] {
      RowsMembers(dims[0], AllPoints(dims[1..]), p);
      if p != [] {
        AllPointsMembers(dims[1..], p[1..]);
        if 0 <= p[0] < dims[0] && InExtent(p[1..], dims[1..]) {
          assert forall d :: 0 < d < |p| ==> p[d] == p[1..][d - 1] && dims[d] == dims[1..][d - 1];
        }
      }
    }
  }

  /** The whole extent is a valid selection holding every point. */
  lemma {:induction false} AllPointsValid(dims: seq<nat>)
    ensures Space(dims, AllPoints(dims)).Valid()
    decreases dims
  {
    forall i | 0 <= i < |AllPoints(dims)| ensures InExtent(AllPoints(dims)[i], dims) {
      AllPointsMembers(dims, AllPoints(dims)[i]);
    }
    if dims != [] {
      var pts := AllPoints(dims[1..]);
      AllPointsValid(dims[1..]);
      RowsSorted(dims[0], pts, |dims| - 1);
    }
  }

  lemma {:induction false} RowsCount(n: nat, pts: seq<Coord>)
    ensures |Rows(n, pts)| == n * |pts|
  {
    if n > 0 {
      var m: nat := n - 1;
      RowsCount(m, pts);
      ScaleSucc(m, |pts|);
    }
  }

  lemma {:induction false} RowsAt(n: nat, pts: seq<Coord>, i: nat, k: nat, at: nat)
    requires i < n && k < |pts| && at == i * |pts| + k
    ensures at < |Rows(n, pts)| && Rows(n, pts)[at] == [i] + pts[k]
  {
    var m: nat := n - 1;
    RowsCount(m, pts);
    if i < m {
      RowsAt(m, pts, i, k, at);
    } else {
      assert at == |Rows(m, pts)| + k;
      assert Prefix(m, pts)[k] == [i] + pts[k];
    }
  }

  lemma {:induction false} AllPointsCount(dims: seq<nat>)
    ensures |AllPoints(dims)| == Size(dims)
    decreases dims
  {
    if dims != [] {
      AllPointsCount(dims[1..]);
      RowsCount(dims[0], AllPoints(dims[1..]));
    }
  }

  /** The linear position of a point is its place in the list of all points. */
  lemma {:induction false} AllPointsLinear(dims: seq<nat>, p: Coord)
    requires InExtent(p, dims)
    ensures |AllPoints(dims)| == Size(dims) && AllPoints(dims)[Linear(p, dims)] == p
    decreases dims
  {
    AllPointsCount(dims);
    if dims != [] {
      var pts, k := AllPoints(dims[1..]), Linear(p[1..], dims[1..]);
      AllPointsLinear(dims[1..], p[1..]);
      RowsAt(dims[0], pts, p[0], k, Linear(p, dims));
      assert p == [p[0]] + p[1..];
    }
  }
}
