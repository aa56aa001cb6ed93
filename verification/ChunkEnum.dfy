/** Enumeration of the chunks that a selection meets: an odometer walks the grid of chunks in
    the bounding box, and the selection is split into one file and one memory selection per chunk. */
module ChunkEnum {
  import opened Grid
  import opened Dataspace

  const DEFAULT_NUM_SEL_CHUNKS := 64

  /** A chunk met by the selection, with its share of the file and memory selections. */
  datatype ChunkInfo = ChunkInfo(coords: Coord, fspace: Space, mspace: Space)

  /** What the caller must supply: spaces and chunks of one rank. */
  ghost predicate Compatible(file: Space, mem: Space, chunk: seq<nat>) {
    && file.Valid() && mem.Valid()
    && |file.dims| == |mem.dims| == |chunk|
    && ChunkShape(chunk)
  }

  lemma CompatibleRank(file: Space, mem: Space, chunk: seq<nat>)
    requires Compatible(file, mem, chunk)
    ensures OfRank(file.pts, |chunk|) && OfRank(mem.pts, |chunk|)
  {
  }

  /** The selections of one chunk: the points inside it moved back to the chunk's corner, and
      the corresponding memory points. */
  function InfoAt(file: Space, mem: Space, chunk: seq<nat>, c: Coord): (info: ChunkInfo)
    requires file.pts != [] && mem.pts != [] && |file.dims| == |mem.dims| == |chunk| == |c|
    requires OfRank(file.pts, |chunk|) && OfRank(mem.pts, |chunk|)
    ensures info.coords == c
  {
    var inside := Within(file.pts, c, chunk);
    WithinRank(file.pts, c, chunk);
    var fpts := Adjust(inside, c);
    ChunkInfo(c, Space(chunk, fpts), Space(mem.dims, Adjust(fpts, Sub(Shift(file, mem), c))))
  }

  lemma {:induction false} WithinRank(pts: seq<Coord>, c: Coord, chunk: seq<nat>)
    ensures OfRank(Within(pts, c, chunk), |c|)
  {
    forall i | 0 <= i < |Within(pts, c, chunk)| ensures |Within(pts, c, chunk)[i]| == |c| {
      WithinMembers(pts, c, chunk, Within(pts, c, chunk)[i]);
    }
  }

  /** File point p of the chunk at c becomes chunk point p - c and memory point p - Shift. */
  lemma InfoPoints(file: Space, mem: Space, chunk: seq<nat>, c: Coord)
    requires Compatible(file, mem, chunk) && file.pts != [] && mem.pts != [] && |c| == |chunk|
    ensures var info, inside := InfoAt(file, mem, chunk, c), Within(file.pts, c, chunk);
      && |info.fspace.pts| == |info.mspace.pts| == |inside|
      && OfRank(inside, |c|)
      && info.fspace == Space(chunk, Adjust(inside, c))
      && info.mspace == Space(mem.dims, Adjust(inside, Shift(file, mem)))
  {
    var inside, shift := Within(file.pts, c, chunk), Shift(file, mem);
    WithinRank(file.pts, c, chunk);
    assert forall i :: 0 <= i < |inside| ==> Sub(Sub(inside[i], c), Sub(shift, c)) == Sub(inside[i], shift);
    assert Adjust(Adjust(inside, c), Sub(shift, c)) == Adjust(inside, shift);
  }

  /** Points inside the chunk at c, moved back by c, lie in the extent of a chunk. */
  lemma ChunkSpaceValid(pts: seq<Coord>, c: Coord, chunk: seq<nat>)
    requires Sorted(pts) && OfRank(Within(pts, c, chunk), |c|)
    ensures Space(chunk, Adjust(Within(pts, c, chunk), c)).Valid()
  {
    var inside := Within(pts, c, chunk);
    WithinSorted(pts, c, chunk);
    AdjustSorted(inside, c);
    forall i | 0 <= i < |inside| ensures InExtent(Sub(inside[i], c), chunk) {
      WithinMembers(pts, c, chunk, inside[i]);
    }
  }

  /** Some points of the file selection, moved to memory, are points of the memory selection. */
  lemma MemSpaceValid(file: Space, mem: Space, chunk: seq<nat>, c: Coord)
    requires Compatible(file, mem, chunk) && file.pts != [] && mem.pts != [] && SameShape(file, mem)
    requires OfRank(Within(file.pts, c, chunk), |chunk|)
    ensures Space(mem.dims, Adjust(Within(file.pts, c, chunk), Shift(file, mem))).Valid()
  {
    var inside, shift := Within(file.pts, c, chunk), Shift(file, mem);
    WithinSorted(file.pts, c, chunk);
    AdjustSorted(inside, shift);
    forall i | 0 <= i < |inside| ensures InExtent(Sub(inside[i], shift), mem.dims) {
      WithinMembers(file.pts, c, chunk, inside[i]);
      var k :| 0 <= k < |file.pts| && file.pts[k] == inside[i];
      assert mem.pts[k] == Sub(file.pts[k], shift);
    }
  }

  /** Both selections of a chunk are valid spaces. */
  lemma InfoValid(file: Space, mem: Space, chunk: seq<nat>, c: Coord)
    requires Compatible(file, mem, chunk) && file.pts != [] && mem.pts != [] && |c| == |chunk|
    requires SameShape(file, mem)
    ensures InfoAt(file, mem, chunk, c).fspace.Valid() && InfoAt(file, mem, chunk, c).mspace.Valid()
  {
    InfoPoints(file, mem, chunk, c);
    ChunkSpaceValid(file.pts, c, chunk);
    MemSpaceValid(file, mem, chunk, c);
  }

  // ----- the grid of chunks in the bounding box -----

  /** A chunk corner between the first corner `lo` and the last selected coordinates `hi`. */
  ghost predicate Cell(g: Coord, lo: Coord, hi: Coord, chunk: seq<nat>)
    requires ChunkShape(chunk)
  {
    |lo| == |hi| == |chunk| && Corner(g, chunk) && Between(lo, g, hi)
  }

  /** The next corner of the grid: dimension d moves on, all faster ones start again. */
  ghost predicate NextCell(g: Coord, lo: Coord, hi: Coord, chunk: seq<nat>, d: int, next: Coord) {
    && |g| == |lo| == |hi| == |chunk| && 0 <= d < |g|
    && g[d] + chunk[d] <= hi[d]
    && (forall e :: d < e < |g| ==> g[e] + chunk[e] > hi[e])
    && next == g[..d] + [g[d] + chunk[d]] + lo[d + 1..]
  }

  /** Some dimension can still move on. */
  ghost predicate CanMove(g: Coord, hi: Coord, chunk: seq<nat>, k: int) {
    |g| == |hi| == |chunk| && 0 <= k < |g| && g[k] + chunk[k] <= hi[k]
  }

  /** A later cell exists only if some dimension can still move on. */
  lemma LaterCellMoves(g: Coord, q: Coord, lo: Coord, hi: Coord, chunk: seq<nat>) returns (k: int)
    requires ChunkShape(chunk) && Cell(g, lo, hi, chunk) && Cell(q, lo, hi, chunk) && Less(g, q)
    ensures CanMove(g, hi, chunk, k)
  {
    k :| LessAt(g, q, k);
    NextMultiple(g[k], q[k], chunk[k]);
  }

  /** The next corner is a cell, later than the present one, with no cell in between. */
  lemma NextCellIsNext(g: Coord, lo: Coord, hi: Coord, chunk: seq<nat>, d: int, next: Coord)
    requires ChunkShape(chunk) && Cell(g, lo, hi, chunk) && Corner(lo, chunk)
    requires NextCell(g, lo, hi, chunk, d, next)
    ensures Cell(next, lo, hi, chunk) && Less(g, next)
    ensures forall q :: Cell(q, lo, hi, chunk) && Less(g, q) ==> !Less(q, next)
  {
    NextMultipleIs(g[d], chunk[d]);
    assert LessAt(g, next, d);
    forall q | Cell(q, lo, hi, chunk) && Less(g, q) ensures !Less(q, next) {
      NothingBetween(g, q, lo, hi, chunk, d, next);
    }
  }

  lemma NextMultipleIs(x: int, c: nat)
    requires c > 0 && x % c == 0
    ensures (x + c) % c == 0
  {
    var k := x / c;
    assert x == k * c;
    ScaleSucc(k, c);
    MultipleOf(k + 1, c);
  }

  lemma NothingBetween(g: Coord, q: Coord, lo: Coord, hi: Coord, chunk: seq<nat>, d: int, next: Coord)
    requires ChunkShape(chunk) && Cell(g, lo, hi, chunk) && Cell(q, lo, hi, chunk) && Less(g, q)
    requires NextCell(g, lo, hi, chunk, d, next)
    ensures !Less(q, next)
  {
    var k :| LessAt(g, q, k);
    NextMultiple(g[k], q[k], chunk[k]);
    assert k <= d;
    forall e | 0 <= e < k ensures q[e] == g[e] == next[e] {
      assert g[..k][e] == q[..k][e];
    }
    if k < d || q[d] > next[d] {
      assert LessAt(next, q, k);
      LessAsymmetric(next, q);
    } else {
      assert forall e :: 0 <= e < |q| ==> next[e] <= q[e];
    }
  }

  // ----- the walk so far -----

  ghost predicate Meets(pts: seq<Coord>, chunk: seq<nat>, c: Coord)
    requires ChunkShape(chunk) && OfRank(pts, |chunk|)
  {
    exists i :: 0 <= i < |pts| && ChunkOf(pts[i], chunk) == c
  }

  ghost predicate Listed(infos: seq<ChunkInfo>, c: Coord) {
    exists k :: 0 <= k < |infos| && infos[k].coords == c
  }

  /** Entries are chunks that the selection meets, in strictly increasing row-major order. */
  ghost predicate Entries(infos: seq<ChunkInfo>, file: Space, mem: Space, chunk: seq<nat>)
    requires Compatible(file, mem, chunk) && file.pts != [] && mem.pts != []
  {
    && (forall k :: 0 <= k < |infos| ==>
          && Corner(infos[k].coords, chunk)
          && Meets(file.pts, chunk, infos[k].coords)
          && infos[k] == InfoAt(file, mem, chunk, infos[k].coords))
    && (forall j, k :: 0 <= j < k < |infos| ==> Less(infos[j].coords, infos[k].coords))
  }

  /** The complete answer: every chunk that the selection meets, once, in row-major order. */
  ghost predicate ChunkList(infos: seq<ChunkInfo>, file: Space, mem: Space, chunk: seq<nat>)
    requires Compatible(file, mem, chunk) && file.pts != [] && mem.pts != []
  {
    && Entries(infos, file, mem, chunk)
    && forall i :: 0 <= i < |file.pts| ==> Listed(infos, ChunkOf(file.pts[i], chunk))
  }

  /** The answer for all cells before `at`. */
  ghost predicate ListedBelow(infos: seq<ChunkInfo>, file: Space, mem: Space, chunk: seq<nat>, at: Coord)
    requires Compatible(file, mem, chunk) && file.pts != [] && mem.pts != []
  {
    && Entries(infos, file, mem, chunk)
    && (forall k :: 0 <= k < |infos| ==> Less(infos[k].coords, at))
    && (forall i :: 0 <= i < |file.pts| && Less(ChunkOf(file.pts[i], chunk), at) ==>
          Listed(infos, ChunkOf(file.pts[i], chunk)))
  }

  /** The selected points in cells from `at` on. */
  ghost function From(pts: seq<Coord>, chunk: seq<nat>, at: Coord): set<Coord>
    requires ChunkShape(chunk) && OfRank(pts, |chunk|)
  {
    set p | p in pts && !Less(ChunkOf(p, chunk), at)
  }

  lemma {:induction false} SortedIsSet(pts: seq<Coord>)
    requires Sorted(pts)
    ensures |set p | p in pts| == |pts|
  {
    if pts != [] {
      var n := |pts| - 1;
      var init, last := pts[..n], pts[n];
      SortedIsSet(init);
      LessIrreflexive(last);
      forall i | 0 <= i < n ensures init[i] != last {
        assert Less(pts[i], pts[n]);
      }
      assert pts == init + [last];
      assert (set p | p in pts) == (set p | p in init) + {last};
    }
  }

  /** The points of the chunk at `at`, as a set, are as many as its file selection holds. */
  lemma InsideIsSet(pts: seq<Coord>, chunk: seq<nat>, at: Coord)
    requires Sorted(pts) && ChunkShape(chunk) && OfRank(pts, |chunk|) && Corner(at, chunk)
    ensures |set p | p in pts && ChunkOf(p, chunk) == at| == |Within(pts, at, chunk)|
  {
    var inside := Within(pts, at, chunk);
    WithinSorted(pts, at, chunk);
    SortedIsSet(inside);
    forall p ensures p in inside <==> p in pts && InBox(p, at, chunk) {
      WithinMembers(pts, at, chunk, p);
    }
    forall p | p in pts ensures InBox(p, at, chunk) <==> ChunkOf(p, chunk) == at {
      InBoxIffChunkOf(p, at, chunk);
    }
    assert (set p | p in inside) == (set p | p in pts && ChunkOf(p, chunk) == at);
  }

  /** Leaving the cell `at` for the next one takes exactly the points inside it off the count. */
  lemma FromNext(pts: seq<Coord>, chunk: seq<nat>, lo: Coord, hi: Coord, at: Coord, d: int, next: Coord)
    requires Sorted(pts) && ChunkShape(chunk) && OfRank(pts, |chunk|)
    requires forall i :: 0 <= i < |pts| ==> Cell(ChunkOf(pts[i], chunk), lo, hi, chunk)
    requires Cell(at, lo, hi, chunk) && Corner(lo, chunk) && NextCell(at, lo, hi, chunk, d, next)
    ensures |From(pts, chunk, next)| == |From(pts, chunk, at)| - |Within(pts, at, chunk)|
    ensures forall p :: p in pts ==>
      (Less(ChunkOf(p, chunk), next) <==> Less(ChunkOf(p, chunk), at) || ChunkOf(p, chunk) == at)
  {
    NextCellIsNext(at, lo, hi, chunk, d, next);
    forall p | p in pts
      ensures Less(ChunkOf(p, chunk), next) <==> Less(ChunkOf(p, chunk), at) || ChunkOf(p, chunk) == at
    {
      var c := ChunkOf(p, chunk);
      if Less(c, at) {
        LessTransitive(c, at, next);
      } else if c != at {
        LessTotal(c, at);
      }
    }
    var inside := set p | p in pts && ChunkOf(p, chunk) == at;
    InsideIsSet(pts, chunk, at);
    LessIrreflexive(at);
    assert From(pts, chunk, next) == From(pts, chunk, at) - inside;
    assert inside <= From(pts, chunk, at);
  }

  /** While points remain beyond the cell `at`, the odometer can move on. */
  lemma SomeLater(pts: seq<Coord>, chunk: seq<nat>, lo: Coord, hi: Coord, at: Coord) returns (k: int)
    requires Sorted(pts) && ChunkShape(chunk) && OfRank(pts, |chunk|)
    requires forall i :: 0 <= i < |pts| ==> Cell(ChunkOf(pts[i], chunk), lo, hi, chunk)
    requires Cell(at, lo, hi, chunk)
    requires |From(pts, chunk, at)| > |Within(pts, at, chunk)|
    ensures CanMove(at, hi, chunk, k)
  {
    var inside := set p | p in pts && ChunkOf(p, chunk) == at;
    InsideIsSet(pts, chunk, at);
    LessIrreflexive(at);
    assert From(pts, chunk, at) == inside + (From(pts, chunk, at) - inside);
    var p :| p in From(pts, chunk, at) - inside;
    var i :| 0 <= i < |pts| && pts[i] == p;
    LessTotal(ChunkOf(p, chunk), at);
    k := LaterCellMoves(at, ChunkOf(pts[i], chunk), lo, hi, chunk);
  }

  /** The list of chunks after visiting the cell `at`. */
  ghost function Visit(infos: seq<ChunkInfo>, file: Space, mem: Space, chunk: seq<nat>, at: Coord): seq<ChunkInfo>
    requires Compatible(file, mem, chunk) && file.pts != [] && mem.pts != [] && |at| == |chunk|
  {
    if Within(file.pts, at, chunk) == [] then infos else infos + [InfoAt(file, mem, chunk, at)]
  }

  /** A cell with points inside is met by the selection. */
  lemma InsideMeets(pts: seq<Coord>, chunk: seq<nat>, at: Coord)
    requires ChunkShape(chunk) && OfRank(pts, |chunk|) && Corner(at, chunk) && Within(pts, at, chunk) != []
    ensures Meets(pts, chunk, at)
  {
    var p := Within(pts, at, chunk)[0];
    WithinMembers(pts, at, chunk, p);
    InBoxIffChunkOf(p, at, chunk);
  }

  lemma AppendEntry(infos: seq<ChunkInfo>, file: Space, mem: Space, chunk: seq<nat>, at: Coord)
    requires Compatible(file, mem, chunk) && file.pts != [] && mem.pts != []
    requires Entries(infos, file, mem, chunk) && forall k :: 0 <= k < |infos| ==> Less(infos[k].coords, at)
    requires |at| == |chunk| && Corner(at, chunk) && Meets(file.pts, chunk, at)
    ensures Entries(infos + [InfoAt(file, mem, chunk, at)], file, mem, chunk)
  {
    hide InfoAt, Less, Meets, Corner;
  }

  /** Visiting a cell adds it exactly when the selection meets it. */
  lemma VisitEntries(infos: seq<ChunkInfo>, file: Space, mem: Space, chunk: seq<nat>, at: Coord)
    requires Compatible(file, mem, chunk) && file.pts != [] && mem.pts != []
    requires ListedBelow(infos, file, mem, chunk, at) && Corner(at, chunk)
    ensures var infos' := Visit(infos, file, mem, chunk, at);
      && Entries(infos', file, mem, chunk)
      && (forall k :: 0 <= k < |infos'| ==> Less(infos'[k].coords, at) || infos'[k].coords == at)
  {
    hide InfoAt, Entries, Less, Meets;
    if Within(file.pts, at, chunk) != [] {
      InsideMeets(file.pts, chunk, at);
      AppendEntry(infos, file, mem, chunk, at);
    }
  }

  /** After a visit the chunk of every point up to the visited cell is listed. */
  lemma VisitListed(infos: seq<ChunkInfo>, file: Space, mem: Space, chunk: seq<nat>, at: Coord, i: nat)
    requires Compatible(file, mem, chunk) && file.pts != [] && mem.pts != []
    requires ListedBelow(infos, file, mem, chunk, at) && Corner(at, chunk) && i < |file.pts|
    requires var c := ChunkOf(file.pts[i], chunk); Less(c, at) || c == at
    ensures Listed(Visit(infos, file, mem, chunk, at), ChunkOf(file.pts[i], chunk))
  {
    hide InfoAt;
    var c, infos' := ChunkOf(file.pts[i], chunk), Visit(infos, file, mem, chunk, at);
    if c == at {
      WithinMembers(file.pts, at, chunk, file.pts[i]);
      assert infos'[|infos|].coords == at;
    } else {
      var k :| 0 <= k < |infos| && infos[k].coords == c;
      assert infos'[k].coords == c;
    }
  }

  /** Moving on keeps the list complete for all cells before the odometer. */
  lemma MoveListed(infos: seq<ChunkInfo>, file: Space, mem: Space, chunk: seq<nat>,
                   lo: Coord, hi: Coord, at: Coord, d: int, next: Coord)
    requires Compatible(file, mem, chunk) && file.pts != [] && mem.pts != []
    requires forall i :: 0 <= i < |file.pts| ==> Cell(ChunkOf(file.pts[i], chunk), lo, hi, chunk)
    requires Cell(at, lo, hi, chunk) && Corner(lo, chunk) && NextCell(at, lo, hi, chunk, d, next)
    requires ListedBelow(infos, file, mem, chunk, at)
    ensures ListedBelow(Visit(infos, file, mem, chunk, at), file, mem, chunk, next)
  {
    hide InfoAt;
    hide Visit;
    var infos' := Visit(infos, file, mem, chunk, at);
    VisitEntries(infos, file, mem, chunk, at);
    FromNext(file.pts, chunk, lo, hi, at, d, next);
    NextCellIsNext(at, lo, hi, chunk, d, next);
    forall i | 0 <= i < |file.pts| && Less(ChunkOf(file.pts[i], chunk), next)
      ensures Listed(infos', ChunkOf(file.pts[i], chunk))
    {
      VisitListed(infos, file, mem, chunk, at, i);
    }
    forall k | 0 <= k < |infos'| ensures Less(infos'[k].coords, next) {
      if Less(infos'[k].coords, at) {
        LessTransitive(infos'[k].coords, at, next);
      }
    }
  }

  /** If no more points are uncounted than the cell `at` holds, none lies beyond it. */
  lemma NoneBeyond(pts: seq<Coord>, chunk: seq<nat>, at: Coord)
    requires Sorted(pts) && ChunkShape(chunk) && OfRank(pts, |chunk|) && Corner(at, chunk)
    requires |From(pts, chunk, at)| == |Within(pts, at, chunk)|
    ensures forall i :: 0 <= i < |pts| ==> Less(ChunkOf(pts[i], chunk), at) || ChunkOf(pts[i], chunk) == at
  {
    var inside := set p | p in pts && ChunkOf(p, chunk) == at;
    InsideIsSet(pts, chunk, at);
    LessIrreflexive(at);
    SameSize(inside, From(pts, chunk, at));
    forall i | 0 <= i < |pts| ensures Less(ChunkOf(pts[i], chunk), at) || ChunkOf(pts[i], chunk) == at {
      assert pts[i] in From(pts, chunk, at) ==> pts[i] in inside;
    }
  }

  lemma SameSize(a: set<Coord>, b: set<Coord>)
    requires a <= b && |a| == |b|
    ensures a == b
  {
    assert b == a + (b - a) && |b| == |a| + |b - a|;
  }

  /** Once no point lies beyond the cell `at`, the list is complete. */
  lemma LastListed(infos: seq<ChunkInfo>, file: Space, mem: Space, chunk: seq<nat>, at: Coord)
    requires Compatible(file, mem, chunk) && file.pts != [] && mem.pts != []
    requires ListedBelow(infos, file, mem, chunk, at) && Corner(at, chunk)
    requires |From(file.pts, chunk, at)| == |Within(file.pts, at, chunk)|
    ensures ChunkList(Visit(infos, file, mem, chunk, at), file, mem, chunk)
  {
    hide InfoAt;
    hide Visit;
    VisitEntries(infos, file, mem, chunk, at);
    NoneBeyond(file.pts, chunk, at);
    forall i | 0 <= i < |file.pts|
      ensures Listed(Visit(infos, file, mem, chunk, at), ChunkOf(file.pts[i], chunk))
    {
      VisitListed(infos, file, mem, chunk, at, i);
    }
  }

  lemma RoundDownOrder(x: int, y: int, c: nat)
    requires c > 0 && x <= y
    ensures RoundDown(x, c) <= RoundDown(y, c)
  {
    if RoundDown(y, c) < RoundDown(x, c) {
      NextMultiple(RoundDown(y, c), RoundDown(x, c), c);
      assert false;
    }
  }

  /** The walk starts below every chunk of the selection, and stays in its bounding box. */
  lemma StartOfWalk(file: Space, mem: Space, chunk: seq<nat>, lo: Coord, hi: Coord)
    requires Compatible(file, mem, chunk) && file.pts != [] && mem.pts != []
    requires lo == ChunkOf(Lo(file.pts, |chunk|), chunk) && hi == Hi(file.pts, |chunk|)
    ensures forall i :: 0 <= i < |file.pts| ==> Cell(ChunkOf(file.pts[i], chunk), lo, hi, chunk)
    ensures Cell(lo, lo, hi, chunk)
    ensures ListedBelow([], file, mem, chunk, lo)
    ensures |From(file.pts, chunk, lo)| == |file.pts|
  {
    var n := |chunk|;
    forall i | 0 <= i < |file.pts|
      ensures Cell(ChunkOf(file.pts[i], chunk), lo, hi, chunk)
      ensures !Less(ChunkOf(file.pts[i], chunk), lo)
    {
      forall d | 0 <= d < n ensures lo[d] <= ChunkOf(file.pts[i], chunk)[d] {
        RoundDownOrder(Lo(file.pts, n)[d], file.pts[i][d], chunk[d]);
      }
    }
    assert Cell(ChunkOf(file.pts[0], chunk), lo, hi, chunk);
    assert From(file.pts, chunk, lo) == set p | p in file.pts;
    SortedIsSet(file.pts);
  }

  // ----- termination: later cells have larger positions in the box -----

  function BoxDims(lo: Coord, hi: Coord): (dims: seq<nat>)
    requires Between(lo, lo, hi)
    ensures |dims| == |lo|
  {
    seq(|lo|, d requires 0 <= d < |lo| => hi[d] - lo[d] + 1)
  }

  /** How many cells of the bounding box are not before g. */
  ghost function CellsLeft(g: Coord, lo: Coord, hi: Coord): nat {
    if Between(lo, g, hi) && Between(lo, lo, hi) then
      assert InExtent(Sub(g, lo), BoxDims(lo, hi));
      Size(BoxDims(lo, hi)) - Linear(Sub(g, lo), BoxDims(lo, hi))
    else 0
  }

  lemma CellsLeftDrops(g: Coord, next: Coord, lo: Coord, hi: Coord)
    requires Between(lo, g, hi) && Between(lo, next, hi) && Between(lo, lo, hi) && Less(g, next)
    ensures CellsLeft(next, lo, hi) < CellsLeft(g, lo, hi)
  {
    SubOrder(g, next, lo);
    LinearMonotone(Sub(g, lo), Sub(next, lo), BoxDims(lo, hi));
  }

  /** The block test finds a cell occupied exactly when its file selection is not empty. */
  lemma BlockTest(pts: seq<Coord>, chunk: seq<nat>, at: Coord, end: Coord)
    requires EndOf(at, chunk, end)
    ensures IntersectsBlock(pts, at, end) <==> Within(pts, at, chunk) != []
  {
    var inside := Within(pts, at, chunk);
    if i :| 0 <= i < |pts| && Between(at, pts[i], end) {
      WithinMembers(pts, at, chunk, pts[i]);
    }
    if inside != [] {
      WithinMembers(pts, at, chunk, inside[0]);
      var i :| 0 <= i < |pts| && pts[i] == inside[0];
      assert Between(at, pts[i], end);
    }
  }

  /** The points inside a cell are among those still to be counted. */
  lemma InsideUncounted(pts: seq<Coord>, chunk: seq<nat>, at: Coord)
    requires Sorted(pts) && ChunkShape(chunk) && OfRank(pts, |chunk|) && Corner(at, chunk)
    ensures |Within(pts, at, chunk)| <= |From(pts, chunk, at)|
  {
    InsideIsSet(pts, chunk, at);
    LessIrreflexive(at);
    var points := set p | p in pts && ChunkOf(p, chunk) == at;
    assert From(pts, chunk, at) == points + (From(pts, chunk, at) - points);
  }

  // ----- one round of the walk -----

  /** The last coordinates of the chunk at `at`. */
  ghost predicate EndOf(at: Coord, chunk: seq<nat>, end: Coord) {
    |at| == |chunk| == |end| && forall d :: 0 <= d < |at| ==> end[d] == at[d] + chunk[d] - 1
  }

  /** The state of the walk at the cell `at`: the list so far, and the points still uncounted. */
  ghost predicate Walking(infos: seq<ChunkInfo>, left: nat, file: Space, mem: Space, chunk: seq<nat>,
                          lo: Coord, hi: Coord, at: Coord, end: Coord)
    requires Compatible(file, mem, chunk) && file.pts != [] && mem.pts != []
  {
    && EndOf(at, chunk, end)
    && (forall i :: 0 <= i < |file.pts| ==> Cell(ChunkOf(file.pts[i], chunk), lo, hi, chunk))
    && Corner(lo, chunk) && Cell(at, lo, hi, chunk) && Between(lo, lo, hi)
    && ListedBelow(infos, file, mem, chunk, at)
    && left == |From(file.pts, chunk, at)|
  }

  lemma WalkVisit(infos: seq<ChunkInfo>, left: nat, file: Space, mem: Space, chunk: seq<nat>,
                  lo: Coord, hi: Coord, at: Coord, end: Coord)
    requires Compatible(file, mem, chunk) && file.pts != [] && mem.pts != []
    requires Walking(infos, left, file, mem, chunk, lo, hi, at, end)
    ensures |at| == |end| == |chunk|
    ensures IntersectsBlock(file.pts, at, end) <==> Within(file.pts, at, chunk) != []
    ensures |Within(file.pts, at, chunk)| <= left
    ensures left == |Within(file.pts, at, chunk)| ==>
      ChunkList(Visit(infos, file, mem, chunk, at), file, mem, chunk)
  {
    BlockTest(file.pts, chunk, at, end);
    InsideUncounted(file.pts, chunk, at);
    if left == |Within(file.pts, at, chunk)| {
      LastListed(infos, file, mem, chunk, at);
    }
  }

  lemma WalkCanMove(infos: seq<ChunkInfo>, left: nat, file: Space, mem: Space, chunk: seq<nat>,
                    lo: Coord, hi: Coord, at: Coord, end: Coord) returns (k: int)
    requires Compatible(file, mem, chunk) && file.pts != [] && mem.pts != []
    requires Walking(infos, left, file, mem, chunk, lo, hi, at, end)
    requires left > |Within(file.pts, at, chunk)|
    ensures CanMove(at, hi, chunk, k)
  {
    k := SomeLater(file.pts, chunk, lo, hi, at);
  }

  lemma WalkMove(infos: seq<ChunkInfo>, left: nat, file: Space, mem: Space, chunk: seq<nat>,
                 lo: Coord, hi: Coord, at: Coord, end: Coord, d: int, next: Coord, nextEnd: Coord)
    requires Compatible(file, mem, chunk) && file.pts != [] && mem.pts != []
    requires Walking(infos, left, file, mem, chunk, lo, hi, at, end)
    requires NextCell(at, lo, hi, chunk, d, next) && EndOf(next, chunk, nextEnd)
    requires |Within(file.pts, at, chunk)| <= left
    ensures Walking(Visit(infos, file, mem, chunk, at), left - |Within(file.pts, at, chunk)|,
                    file, mem, chunk, lo, hi, next, nextEnd)
    ensures CellsLeft(next, lo, hi) < CellsLeft(at, lo, hi)
  {
    MoveListed(infos, file, mem, chunk, lo, hi, at, d, next);
    FromNext(file.pts, chunk, lo, hi, at, d, next);
    NextCellIsNext(at, lo, hi, chunk, d, next);
    CellsLeftDrops(at, next, lo, hi);
  }

  // ----- the code -----

  /** Moves dimension inc to its next chunk. */
  method Bump(start: array<int>, end: array<int>, chunk: seq<nat>, inc: nat)
    requires start != end && start.Length == end.Length == |chunk| && inc < |chunk|
    modifies start, end
    ensures start[..] == old(start[..])[inc := old(start[inc]) + chunk[inc]]
    ensures end[..] == old(end[..])[inc := start[inc] + chunk[inc] - 1]
  {
    start[inc] := start[inc] + chunk[inc];
    end[inc] := start[inc] + chunk[inc] - 1;
  }

  /** Dimension i has moved on, and the faster ones have run over and are back at the start. */
  ghost predicate Carried(g: Coord, lo: Coord, hi: Coord, chunk: seq<nat>, i: int, cur: Coord) {
    && |g| == |lo| == |hi| == |chunk| == |cur| && 0 <= i < |g|
    && (forall e :: 0 <= e < i ==> cur[e] == g[e])
    && cur[i] == g[i] + chunk[i]
    && (forall e :: i < e < |g| ==> cur[e] == lo[e] && g[e] + chunk[e] > hi[e])
  }

  lemma CarriedIsNext(g: Coord, lo: Coord, hi: Coord, chunk: seq<nat>, i: int, cur: Coord)
    requires Carried(g, lo, hi, chunk, i, cur) && cur[i] <= hi[i]
    ensures NextCell(g, lo, hi, chunk, i, cur)
  {
    assert cur == g[..i] + [g[i] + chunk[i]] + lo[i + 1..];
  }

  /** The carry loop of the odometer. */
  method MoveOn(start: array<int>, end: array<int>, lo: Coord, hi: Coord, chunk: seq<nat>, ghost k: int)
    returns (ghost d: int)
    requires start != end && start.Length == end.Length == |lo| == |hi| == |chunk|
    requires CanMove(start[..], hi, chunk, k)
    requires EndOf(start[..], chunk, end[..])
    modifies start, end
    ensures NextCell(old(start[..]), lo, hi, chunk, d, start[..])
    ensures EndOf(start[..], chunk, end[..])
  {
    ghost var g := start[..];
    var inc := start.Length - 1;
    Bump(start, end, chunk, inc);
    while start[inc] > hi[inc]
      invariant k <= inc < start.Length
      invariant Carried(g, lo, hi, chunk, inc, start[..])
      invariant EndOf(start[..], chunk, end[..])
      decreases inc
    {
      assert start[..][inc] == g[inc] + chunk[inc];
      start[inc] := lo[inc];
      end[inc] := start[inc] + chunk[inc] - 1;
      inc := inc - 1;
      Bump(start, end, chunk, inc);
    }
    CarriedIsNext(g, lo, hi, chunk, inc, start[..]);
    d := inc;
  }

  /** Makes room for one more entry, doubling the buffer as often as needed. */
  method Reserve(buf: array<ChunkInfo>, i: nat) returns (r: array<ChunkInfo>)
    requires 0 < buf.Length && i <= buf.Length
    ensures i < r.Length && r[..i] == buf[..i]
    ensures r == buf || fresh(r)
  {
    r := buf;
    while i > r.Length - 1
      invariant i <= r.Length && 0 < r.Length
      invariant r[..i] == buf[..i]
      invariant r == buf || fresh(r)
      decreases i + 1 - r.Length
    {
      var bigger := new ChunkInfo[2 * r.Length](_ => ChunkInfo([], Space([], []), Space([], [])));
      var j := 0;
      while j < r.Length
        modifies bigger
        invariant j <= r.Length && bigger[..j] == r[..j]
      {
        bigger[j] := r[j];
        j := j + 1;
      }
      assert bigger[..r.Length] == r[..];
      r := bigger;
    }
  }

  /** Visits one cell: if the selection meets it, its entry is appended and its points are
      taken off the count. */
  method VisitCell(info: array<ChunkInfo>, len: nat, left: nat, file: Space, mem: Space, chunk: seq<nat>,
                   at: Coord, end: Coord, adjust: Coord) returns (info': array<ChunkInfo>, len': nat, left': nat)
    requires Compatible(file, mem, chunk) && file.pts != [] && mem.pts != []
    requires |at| == |end| == |chunk| && adjust == Shift(file, mem)
    requires 0 < info.Length && len <= info.Length
    requires IntersectsBlock(file.pts, at, end) <==> Within(file.pts, at, chunk) != []
    requires |Within(file.pts, at, chunk)| <= left
    modifies info
    ensures info' == info || fresh(info')
    ensures len' <= info'.Length && 0 < info'.Length
    ensures info'[..len'] == Visit(old(info[..len]), file, mem, chunk, at)
    ensures left' == left - |Within(file.pts, at, chunk)|
  {
    info', len', left' := info, len, left;
    ghost var infos := info[..len];
    if IntersectsBlock(file.pts, at, end) {
      var entry := ChunkEntry(file, mem, chunk, at, adjust);
      info' := Reserve(info, len);
      assert info'[..len] == infos;
      info'[len] := entry;
      assert info'[..len + 1] == infos + [entry];
      len' := len + 1;
      left' := left - |entry.fspace.pts|;
    }
  }

  /** The file and memory spaces of one chunk, step by step. */
  method ChunkEntry(file: Space, mem: Space, chunk: seq<nat>, coords: Coord, adjust: Coord)
    returns (entry: ChunkInfo)
    requires Compatible(file, mem, chunk) && file.pts != [] && mem.pts != []
    requires |coords| == |chunk| && adjust == Shift(file, mem)
    ensures entry == InfoAt(file, mem, chunk, coords)
    ensures |entry.fspace.pts| == |Within(file.pts, coords, chunk)|
  {
    WithinRank(file.pts, coords, chunk);
    var fspace := Space(file.dims, Within(file.pts, coords, chunk));
    fspace := fspace.(dims := chunk);
    fspace := fspace.(pts := Adjust(fspace.pts, coords));
    var chunkMemSpaceAdjust := Sub(adjust, coords);
    var mspace := Space(mem.dims, fspace.pts);
    mspace := mspace.(pts := Adjust(mspace.pts, chunkMemSpaceAdjust));
    entry := ChunkInfo(coords, fspace, mspace);
  }

  /** Moves the odometer to the next cell, keeping the state of the walk. */
  method Advance(start: array<int>, end: array<int>, file: Space, mem: Space, chunk: seq<nat>, lo: Coord, hi: Coord,
                 ghost infos: seq<ChunkInfo>, ghost left: nat)
    requires Compatible(file, mem, chunk) && file.pts != [] && mem.pts != []
    requires start != end
    requires Walking(infos, left, file, mem, chunk, lo, hi, start[..], end[..])
    requires |start[..]| == |chunk| && left > |Within(file.pts, start[..], chunk)|
    modifies start, end
    ensures Walking(Visit(infos, file, mem, chunk, old(start[..])),
                    left - |Within(file.pts, old(start[..]), chunk)|,
                    file, mem, chunk, lo, hi, start[..], end[..])
    ensures CellsLeft(start[..], lo, hi) < CellsLeft(old(start[..]), lo, hi)
  {
    ghost var at, atEnd := start[..], end[..];
    ghost var k := WalkCanMove(infos, left, file, mem, chunk, lo, hi, at, atEnd);
    ghost var d := MoveOn(start, end, lo, hi, chunk, k);
    WalkMove(infos, left, file, mem, chunk, lo, hi, at, atEnd, d, start[..], end[..]);
  }

  /** One round of the walk: visit the cell, and move on unless every point is accounted for. */
  method WalkRound(info: array<ChunkInfo>, len: nat, left: nat, file: Space, mem: Space, chunk: seq<nat>,
                   start: array<int>, end: array<int>, lo: Coord, hi: Coord, adjust: Coord)
    returns (info': array<ChunkInfo>, len': nat, left': nat)
    requires Compatible(file, mem, chunk) && file.pts != [] && mem.pts != []
    requires adjust == Shift(file, mem) && start != end
    requires 0 < info.Length && len <= info.Length
    requires Walking(info[..len], left, file, mem, chunk, lo, hi, start[..], end[..])
    modifies info, start, end
    ensures info' == info || fresh(info')
    ensures len' <= info'.Length && 0 < info'.Length
    ensures left' == 0 ==> ChunkList(info'[..len'], file, mem, chunk)
    ensures left' > 0 ==>
      && Walking(info'[..len'], left', file, mem, chunk, lo, hi, start[..], end[..])
      && CellsLeft(start[..], lo, hi) < CellsLeft(old(start[..]), lo, hi)
  {
    hide *;
    ghost var infos, at, atEnd := info[..len], start[..], end[..];
    WalkVisit(infos, left, file, mem, chunk, lo, hi, at, atEnd);
    info', len', left' := VisitCell(info, len, left, file, mem, chunk, start[..], end[..], adjust);
    if left' > 0 {
      Advance(start, end, file, mem, chunk, lo, hi, infos, left);
    }
  }

  /** The loop over the chunks of the bounding box, until every selected point is accounted for. */
  method Walk(file: Space, mem: Space, chunk: seq<nat>, start: array<int>, end: array<int>,
              lo: Coord, hi: Coord, adjust: Coord) returns (info: array<ChunkInfo>, len: nat)
    requires Compatible(file, mem, chunk) && file.pts != [] && mem.pts != []
    requires adjust == Shift(file, mem) && start != end
    requires Walking([], |file.pts|, file, mem, chunk, lo, hi, start[..], end[..])
    modifies start, end
    ensures len <= info.Length && ChunkList(info[..len], file, mem, chunk)
  {
    info := new ChunkInfo[DEFAULT_NUM_SEL_CHUNKS](_ => ChunkInfo([], Space([], []), Space([], [])));
    hide *;
    len := 0;
    var left: nat := |file.pts|;
    assert info[..0] == [];
    while left > 0
      invariant fresh(info) && len <= info.Length && 0 < info.Length
      invariant left > 0 ==> Walking(info[..len], left, file, mem, chunk, lo, hi, start[..], end[..])
      invariant left == 0 ==> ChunkList(info[..len], file, mem, chunk)
      decreases if left > 0 then CellsLeft(start[..], lo, hi) + 1 else 0
    {
      info, len, left := WalkRound(info, len, left, file, mem, chunk, start, end, lo, hi, adjust);
    }
  }

  /** Splits a selection into one file and one memory selection for each chunk it meets. Fails
      when a selection is empty or when no vector moves one to the other. */
  method GetSelectedChunkInfo(chunk: seq<nat>, file: Space, mem: Space)
    returns (ok: bool, info: array<ChunkInfo>, len: nat)
    requires Compatible(file, mem, chunk)
    ensures ok <==> file.pts != [] && exists v :: Moved(file.pts, mem.pts, v)
    ensures ok ==> SameShape(file, mem)
    ensures ok ==> len <= info.Length && ChunkList(info[..len], file, mem, chunk)
  {
    var n := |chunk|;
    CompatibleRank(file, mem, chunk);
    if file.pts != [] && mem.pts != [] {
      SameShapeIff(file, mem);
    }
    if file.pts == [] || mem.pts == [] || !SameShape(file, mem) {
      ok, info, len := false, new ChunkInfo[0], 0;
      return;
    }
    var fileSelStart, hi := Lo(file.pts, n), Hi(file.pts, n);
    var adjust := Sub(fileSelStart, Lo(mem.pts, n));
    var lo := ChunkOf(fileSelStart, chunk);
    var start := new int[n](d requires 0 <= d < n => lo[d]);
    var end := new int[n](d requires 0 <= d < n => lo[d] + chunk[d] - 1);
    assert start[..] == lo;
    StartOfWalk(file, mem, chunk, lo, hi);
    info, len := Walk(file, mem, chunk, start, end, lo, hi, adjust);
    ok := true;
  }

  // ----- what the list means -----

  /** The entry's file selection, shifted back to the dataset, contains p. */
  ghost predicate Holds(info: ChunkInfo, p: Coord) {
    |p| == |info.coords| && Sub(p, info.coords) in info.fspace.pts
  }

  lemma HoldsIff(file: Space, mem: Space, chunk: seq<nat>, c: Coord, p: Coord)
    requires Compatible(file, mem, chunk) && file.pts != [] && mem.pts != [] && Corner(c, chunk)
    requires |p| == |chunk|
    ensures Holds(InfoAt(file, mem, chunk, c), p) <==> p in file.pts && ChunkOf(p, chunk) == c
  {
    InfoPoints(file, mem, chunk, c);
    var inside := Within(file.pts, c, chunk);
    WithinMembers(file.pts, c, chunk, p);
    InBoxIffChunkOf(p, c, chunk);
    if p in inside {
      var i :| 0 <= i < |inside| && inside[i] == p;
      assert Adjust(inside, c)[i] == Sub(p, c);
    }
    if Sub(p, c) in Adjust(inside, c) {
      var i :| 0 <= i < |inside| && Adjust(inside, c)[i] == Sub(p, c);
      forall d | 0 <= d < |p| ensures p[d] == inside[i][d] {
        assert Sub(p, c)[d] == Sub(inside[i], c)[d];
      }
      assert p == inside[i];
    }
  }

  /** The chunks partition the selection: every selected point lies in the file selection of
      exactly one entry, the one of its own chunk, and no entry holds anything else. */
  lemma ChunksPartition(infos: seq<ChunkInfo>, file: Space, mem: Space, chunk: seq<nat>, p: Coord)
    requires Compatible(file, mem, chunk) && file.pts != [] && mem.pts != []
    requires ChunkList(infos, file, mem, chunk) && |p| == |chunk|
    ensures p in file.pts <==> exists k :: 0 <= k < |infos| && Holds(infos[k], p)
    ensures forall j, k :: 0 <= j < |infos| && 0 <= k < |infos| && Holds(infos[j], p) && Holds(infos[k], p) ==> j == k
  {
    forall k | 0 <= k < |infos|
      ensures Holds(infos[k], p) <==> p in file.pts && ChunkOf(p, chunk) == infos[k].coords
    {
      HoldsIff(file, mem, chunk, infos[k].coords, p);
    }
    if p in file.pts {
      var i :| 0 <= i < |file.pts| && file.pts[i] == p;
      assert Listed(infos, ChunkOf(file.pts[i], chunk));
    }
    forall j, k | 0 <= j < k < |infos| ensures infos[j].coords != infos[k].coords {
      LessIrreflexive(infos[j].coords);
      assert Less(infos[j].coords, infos[k].coords);
    }
  }

  ghost predicate SameMembers(a: seq<Coord>, b: seq<Coord>) {
    forall p :: p in a <==> p in b
  }

  /** Every member of an increasing list but the last is smaller than the last. */
  lemma BeforeLast(a: seq<Coord>, p: Coord)
    requires Sorted(a) && p in a
    ensures p == a[|a| - 1] || Less(p, a[|a| - 1])
    ensures p in a[..|a| - 1] <==> p != a[|a| - 1]
  {
    var i :| 0 <= i < |a| && a[i] == p;
    LessIrreflexive(a[|a| - 1]);
    if i < |a| - 1 {
      assert a[..|a| - 1][i] == p;
    }
  }

  /** Strictly increasing lists with the same members are the same list. */
  lemma {:induction false} SortedUnique(a: seq<Coord>, b: seq<Coord>)
    requires Sorted(a) && Sorted(b) && SameMembers(a, b)
    ensures a == b
  {
    assert a != [] ==> a[0] in b;
    assert b != [] ==> b[0] in a;
    if a != [] {
      var a', x := a[..|a| - 1], a[|a| - 1];
      var b', y := b[..|b| - 1], b[|b| - 1];
      assert x in b && y in a;
      BeforeLast(b, x);
      BeforeLast(a, y);
      if x != y {
        LessAsymmetric(x, y);
      }
      assert a == a' + [x] && b == b' + [y];
      forall p ensures p in a' <==> p in b' {
        if p in a || p in b {
          assert p in a && p in b;
          BeforeLast(a, p);
          BeforeLast(b, p);
        }
      }
      SortedUnique(a', b');
    }
  }

  /** The specification leaves no freedom: there is only one list of chunks for a selection. */
  lemma ChunkListUnique(a: seq<ChunkInfo>, b: seq<ChunkInfo>, file: Space, mem: Space, chunk: seq<nat>)
    requires Compatible(file, mem, chunk) && file.pts != [] && mem.pts != []
    requires ChunkList(a, file, mem, chunk) && ChunkList(b, file, mem, chunk)
    ensures a == b
  {
    SameCoords(a, b, file, mem, chunk);
    SameCoords(b, a, file, mem, chunk);
    CoordsSorted(a, file, mem, chunk);
    CoordsSorted(b, file, mem, chunk);
    assert SameMembers(CoordsOf(a), CoordsOf(b));
    SortedUnique(CoordsOf(a), CoordsOf(b));
    assert |CoordsOf(a)| == |a| && |CoordsOf(b)| == |b|;
    forall k | 0 <= k < |a| ensures a[k] == b[k] {
      assert a[k].coords == CoordsOf(a)[k] == b[k].coords;
      EntryIs(a, file, mem, chunk, k);
      EntryIs(b, file, mem, chunk, k);
    }
    hide *;
  }

  function CoordsOf(infos: seq<ChunkInfo>): (r: seq<Coord>)
    ensures |r| == |infos|
  {
    seq(|infos|, k requires 0 <= k < |infos| => infos[k].coords)
  }

  lemma CoordsSorted(a: seq<ChunkInfo>, file: Space, mem: Space, chunk: seq<nat>)
    requires Compatible(file, mem, chunk) && file.pts != [] && mem.pts != [] && ChunkList(a, file, mem, chunk)
    ensures Sorted(CoordsOf(a)) && forall c :: c in CoordsOf(a) <==> Listed(a, c)
  {
    hide InfoAt, Less, Meets;
    forall c | Listed(a, c) ensures c in CoordsOf(a) {
      var k :| 0 <= k < |a| && a[k].coords == c;
      assert CoordsOf(a)[k] == c;
    }
  }

  lemma EntryIs(a: seq<ChunkInfo>, file: Space, mem: Space, chunk: seq<nat>, k: nat)
    requires Compatible(file, mem, chunk) && file.pts != [] && mem.pts != [] && ChunkList(a, file, mem, chunk) && k < |a|
    ensures |a[k].coords| == |chunk| && a[k] == InfoAt(file, mem, chunk, a[k].coords)
  {
    hide InfoAt, Less, Meets;
  }

  lemma SameCoords(a: seq<ChunkInfo>, b: seq<ChunkInfo>, file: Space, mem: Space, chunk: seq<nat>)
    requires Compatible(file, mem, chunk) && file.pts != [] && mem.pts != []
    requires ChunkList(a, file, mem, chunk) && ChunkList(b, file, mem, chunk)
    ensures forall c :: Listed(a, c) ==> Listed(b, c)
  {
    forall c | Listed(a, c) ensures Listed(b, c) {
      var k :| 0 <= k < |a| && a[k].coords == c;
      assert Meets(file.pts, chunk, a[k].coords);
    }
  }
}
