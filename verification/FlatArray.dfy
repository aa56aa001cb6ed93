/** What a dataset stored as separate chunk objects means as one flat n-dimensional array, and
    what writing or reading one chunk means for that array. */
module FlatArray {
  import opened Codec
  import opened Keys
  import opened Grid
  import opened Runs
  import opened IoPlan
  import opened Dataspace
  import opened ChunkEnum
  import opened Transfer

  datatype Layout = Contiguous | Chunked(chunk: seq<nat>)

  datatype Dset = Dset(file: string, writable: bool, oid: uint64, dims: seq<nat>, layout: Layout, typeSize: nat) {
    ghost predicate Valid() {
      && |dims| <= MAX_RANK && typeSize > 0
      && (forall d :: 0 <= d < |dims| ==> dims[d] < TWO_TO_THE_64)
      && (layout.Chunked? ==> |layout.chunk| == |dims| && ChunkShape(layout.chunk))
    }
  }

  /** The shape of the objects that hold the dataset. A contiguous dataset is a single chunk. */
  function GridOf(ds: Dset): (grid: seq<nat>)
    requires ds.Valid()
    ensures |grid| == |ds.dims| && ChunkShape(grid)
  {
    match ds.layout
    case Contiguous => seq(|ds.dims|, d requires 0 <= d < |ds.dims| => if ds.dims[d] > 0 then ds.dims[d] else 1)
    case Chunked(chunk) => chunk
  }

  // ----- the dataset as a flat array -----

  type Objects = map<string, Content>

  function ObjAt(objs: Objects, key: string): Content {
    if key in objs then objs[key] else map[]
  }

  predicate LocOk(c: Coord) {
    |c| <= MAX_RANK && forall d :: 0 <= d < |c| ==> 0 <= c[d] < TWO_TO_THE_64
  }

  function KeyAt(ds: Dset, c: Coord): string
    requires LocOk(c)
  {
    ChunkKey(ds.file, ds.oid, c)
  }

  lemma CornerLocOk(ds: Dset, p: Coord)
    requires ds.Valid() && InExtent(p, ds.dims)
    ensures LocOk(ChunkOf(p, GridOf(ds))) && InExtent(Sub(p, ChunkOf(p, GridOf(ds))), GridOf(ds))
  {
    var grid := GridOf(ds);
    var c := ChunkOf(p, grid);
    forall d | 0 <= d < |c| ensures 0 <= c[d] < TWO_TO_THE_64 {
      RoundDownNat(p[d], grid[d]);
    }
  }

  lemma RoundDownNat(x: nat, c: nat)
    requires c > 0
    ensures RoundDown(x, c) >= 0
  {
    ScaleLe(0, x / c, c);
  }

  /** Where byte b of a point lies in the object of its chunk. */
  function Place(ds: Dset, p: Coord, b: nat): nat
    requires ds.Valid() && InExtent(p, ds.dims)
  {
    CornerLocOk(ds, p);
    Linear(Sub(p, ChunkOf(p, GridOf(ds))), GridOf(ds)) * ds.typeSize + b
  }

  /** Byte b of point p of the dataset. */
  function DatasetByte(objs: Objects, ds: Dset, p: Coord, b: nat): byte
    requires ds.Valid() && InExtent(p, ds.dims)
  {
    CornerLocOk(ds, p);
    ByteAt(ObjAt(objs, KeyAt(ds, ChunkOf(p, GridOf(ds)))), Place(ds, p, b))
  }

  ghost function IndexOf(pts: seq<Coord>, p: Coord): (k: nat)
    requires p in pts
    ensures k < |pts| && pts[k] == p
  {
    var k :| 0 <= k < |pts| && pts[k] == p;
    k
  }

  lemma IndexUnique(pts: seq<Coord>, k: nat)
    requires Sorted(pts) && k < |pts|
    ensures IndexOf(pts, pts[k]) == k
  {
    var i := IndexOf(pts, pts[k]);
    assert i < k ==> Less(pts[i], pts[k]);
    assert k < i ==> Less(pts[k], pts[i]);
    LessIrreflexive(pts[k]);
  }

  /** The buffer can hold the whole memory extent. */
  predicate BufferFits(mem: Space, typeSize: nat, n: nat) {
    Size(mem.dims) * typeSize <= n
  }

  lemma ElementFits(mem: Space, typeSize: nat, n: nat, k: nat)
    requires mem.Valid() && BufferFits(mem, typeSize, n) && k < |mem.pts|
    ensures Starts(mem, typeSize)[k] + typeSize <= n
  {
    ScaleOrder(Linear(mem.pts[k], mem.dims), Size(mem.dims), typeSize);
  }

  /** The memory byte that belongs to byte b of the selected file point p. */
  ghost function MemByte(file: Space, mem: Space, typeSize: nat, p: Coord, b: nat): nat
    requires mem.Valid() && |file.pts| == |mem.pts| && p in file.pts
  {
    Byte(Starts(mem, typeSize), IndexOf(file.pts, p), b)
  }

  /** The value byte b of point p should have once the chunks in `done` are written. */
  ghost function Expected(before: Objects, ds: Dset, file: Space, mem: Space, buf: seq<byte>,
                          done: set<Coord>, p: Coord, b: nat): byte
    requires ds.Valid() && InExtent(p, ds.dims) && mem.Valid() && |file.pts| == |mem.pts| && b < ds.typeSize
    requires BufferFits(mem, ds.typeSize, |buf|)
  {
    if p in file.pts && ChunkOf(p, GridOf(ds)) in done then
      ElementFits(mem, ds.typeSize, |buf|, IndexOf(file.pts, p));
      buf[MemByte(file, mem, ds.typeSize, p, b)]
    else DatasetByte(before, ds, p, b)
  }

  ghost predicate Updated(before: Objects, now: Objects, ds: Dset, file: Space, mem: Space, buf: seq<byte>,
                          done: set<Coord>)
    requires ds.Valid() && mem.Valid() && |file.pts| == |mem.pts| && BufferFits(mem, ds.typeSize, |buf|)
  {
    forall p, b: nat :: InExtent(p, ds.dims) && b < ds.typeSize ==>
      DatasetByte(now, ds, p, b) == Expected(before, ds, file, mem, buf, done, p, b)
  }

  /** The key belongs to some chunk of the dataset. */
  ghost predicate OwnKey(ds: Dset, key: string) {
    exists c :: LocOk(c) && key == KeyAt(ds, c)
  }

  /** Objects of other datasets, groups and files are as before. */
  ghost predicate OthersKept(before: Objects, now: Objects, ds: Dset) {
    forall key :: !OwnKey(ds, key) ==> ObjAt(now, key) == ObjAt(before, key)
  }

  // ----- one chunk -----

  /** The j-th entry of a chunk's selections is the k-th entry of the whole selections. */
  ghost predicate SamePoint(info: ChunkInfo, grid: seq<nat>, file: Space, mem: Space, j: nat, k: nat)
    requires ChunkShape(grid)
  {
    && j < |info.fspace.pts| && j < |info.mspace.pts| && k < |file.pts| && k < |mem.pts|
    && |file.pts[k]| == |info.coords| == |grid|
    && ChunkOf(file.pts[k], grid) == info.coords
    && info.fspace.pts[j] == Sub(file.pts[k], info.coords)
    && info.mspace.pts[j] == mem.pts[k]
  }

  ghost predicate HasIndex(info: ChunkInfo, grid: seq<nat>, file: Space, mem: Space, j: nat)
    requires ChunkShape(grid)
  {
    exists k: nat :: SamePoint(info, grid, file, mem, j, k)
  }

  ghost predicate HasEntry(info: ChunkInfo, grid: seq<nat>, file: Space, mem: Space, k: nat)
    requires ChunkShape(grid)
  {
    exists j: nat :: SamePoint(info, grid, file, mem, j, k)
  }

  /** The selections of one chunk: exactly the selected points inside it, in order. */
  ghost predicate Piece(info: ChunkInfo, grid: seq<nat>, file: Space, mem: Space)
    requires ChunkShape(grid)
  {
    && LocOk(info.coords) && |info.coords| == |grid|
    && info.fspace.Valid() && info.fspace.dims == grid
    && info.mspace.Valid() && info.mspace.dims == mem.dims
    && |info.fspace.pts| == |info.mspace.pts| > 0
    && (forall j: nat :: j < |info.fspace.pts| ==> HasIndex(info, grid, file, mem, j))
    && (forall k: nat :: k < |file.pts| && |file.pts[k]| == |grid| && ChunkOf(file.pts[k], grid) == info.coords ==>
          HasEntry(info, grid, file, mem, k))
  }

  /** A plan for one chunk: it pairs the elements of the two selections, inside a memory buffer
      of n bytes. */
  ghost predicate IsPlan(ops: seq<Op>, info: ChunkInfo, typeSize: nat, n: nat) {
    && info.fspace.Valid() && info.mspace.Valid()
    && PairsElements(OpPairs(ops), Starts(info.mspace, typeSize), Starts(info.fspace, typeSize), typeSize)
    && Fits(ops, n)
  }

  /** Merging whatever the iterators hand out for the two selections gives a plan. */
  lemma PlanPairs(m: Selection, f: Selection, info: ChunkInfo, grid: seq<nat>, file: Space, mem: Space, typeSize: nat, n: nat)
    requires ChunkShape(grid) && Piece(info, grid, file, mem) && typeSize > 0 && BufferFits(mem, typeSize, n)
    requires HandedOut(m, Starts(info.mspace, typeSize), typeSize) && HandedOut(f, Starts(info.fspace, typeSize), typeSize)
    ensures IsPlan(Merge(m.runs, f.runs), info, typeSize, n)
    ensures Total(m.runs) == Total(f.runs) == |info.mspace.pts| * typeSize
  {
    var ms, fs := Starts(info.mspace, typeSize), Starts(info.fspace, typeSize);
    StartsSpaced(info.mspace, typeSize);
    StartsSpaced(info.fspace, typeSize);
    MergePairsElements(m, f, ms, fs, typeSize);
    var ops := Merge(m.runs, f.runs);
    var pairs := OpPairs(ops);
    MergeCount(m.runs, f.runs);
    forall i | 0 <= i < |pairs| ensures pairs[i].0 < n {
      assert Covered(ms, typeSize, pairs[i].0);
      var k :| 0 <= k < |ms| && ms[k] <= pairs[i].0 < ms[k] + typeSize;
      ElementFits(info.mspace, typeSize, n, k);
    }
    PairsFit(ops, n);
  }

  /** Distinct positions have disjoint elements. */
  lemma SamePosition(a: nat, b: nat, r: nat, typeSize: nat)
    requires r < typeSize && a * typeSize <= b * typeSize + r < a * typeSize + typeSize
    ensures a == b
  {
    if a < b {
      ScaleOrder(a, b, typeSize);
      assert false;
    } else if b < a {
      ScaleOrder(b, a, typeSize);
      assert false;
    }
  }

  /** A point of the chunk that is not selected lies outside every element written. */
  lemma NotWritten(info: ChunkInfo, ds: Dset, file: Space, mem: Space, p: Coord, b: nat)
    requires ds.Valid() && Piece(info, GridOf(ds), file, mem) && InExtent(p, ds.dims) && b < ds.typeSize
    requires ChunkOf(p, GridOf(ds)) == info.coords && p !in file.pts
    ensures !Covered(Starts(info.fspace, ds.typeSize), ds.typeSize, Place(ds, p, b))
  {
    CornerLocOk(ds, p);
    var grid, ts := GridOf(ds), ds.typeSize;
    var q := Sub(p, info.coords);
    forall j: nat | j < |info.fspace.pts|
      ensures !(Starts(info.fspace, ts)[j] <= Place(ds, p, b) < Starts(info.fspace, ts)[j] + ts)
    {
      if Starts(info.fspace, ts)[j] <= Place(ds, p, b) < Starts(info.fspace, ts)[j] + ts {
        SamePosition(Linear(info.fspace.pts[j], grid), Linear(q, grid), b, ts);
        LinearInjective(info.fspace.pts[j], q, grid);
        assert HasIndex(info, grid, file, mem, j);
        var k: nat :| SamePoint(info, grid, file, mem, j, k);
        SubInjective(file.pts[k], p, info.coords);
        assert false;
      }
    }
  }

  lemma SubInjective(a: Coord, b: Coord, c: Coord)
    requires |a| == |b| == |c| && Sub(a, c) == Sub(b, c)
    ensures a == b
  {
    forall d | 0 <= d < |a| ensures a[d] == b[d] {
      assert Sub(a, c)[d] == Sub(b, c)[d];
    }
  }

  /** Chunks at different places, and chunks of other datasets, have different keys. */
  lemma OtherChunkKey(ds: Dset, c: Coord, e: Coord)
    requires LocOk(c) && LocOk(e) && c != e
    ensures KeyAt(ds, c) != KeyAt(ds, e)
  {
    if KeyAt(ds, c) == KeyAt(ds, e) {
      KeysDistinct(Chunk(ds.file, ds.oid, c), Chunk(ds.file, ds.oid, e));
    }
  }

  /** Storing a new object under the key of one chunk. */
  ghost function AfterChunk(objs: Objects, ds: Dset, info: ChunkInfo, ops: seq<Op>, buf: seq<byte>): Objects
    requires LocOk(info.coords) && Fits(ops, |buf|)
  {
    var key := KeyAt(ds, info.coords);
    objs[key := WriteOps(ObjAt(objs, key), ops, buf)]
  }

  /** What a chunk is transferred with: valid arguments, a piece of the two selections, and any
      plan for it. */
  ghost predicate Writable(ds: Dset, file: Space, mem: Space, info: ChunkInfo, ops: seq<Op>, n: nat) {
    && ds.Valid() && file.Valid() && mem.Valid() && |file.pts| == |mem.pts|
    && BufferFits(mem, ds.typeSize, n)
    && Piece(info, GridOf(ds), file, mem)
    && IsPlan(ops, info, ds.typeSize, n)
  }

  lemma WriteSelected(objs: Objects, ds: Dset, file: Space, mem: Space, info: ChunkInfo, ops: seq<Op>,
                    buf: seq<byte>, p: Coord, b: nat)
    requires Writable(ds, file, mem, info, ops, |buf|) && InExtent(p, ds.dims) && b < ds.typeSize
    requires ChunkOf(p, GridOf(ds)) == info.coords && p in file.pts
    ensures MemByte(file, mem, ds.typeSize, p, b) < |buf|
    ensures DatasetByte(AfterChunk(objs, ds, info, ops, buf), ds, p, b) == buf[MemByte(file, mem, ds.typeSize, p, b)]
  {
    hide WriteOps;
    hide PairsElements;
    var grid, ts := GridOf(ds), ds.typeSize;
    var key, k := KeyAt(ds, info.coords), IndexOf(file.pts, p);
    var ms, fs := Starts(info.mspace, ts), Starts(info.fspace, ts);
    CornerLocOk(ds, p);
    assert HasEntry(info, grid, file, mem, k);
    var j: nat :| SamePoint(info, grid, file, mem, j, k);
    WriteElement(ObjAt(objs, key), ops, buf, ms, fs, ts, j, b);
    assert Byte(fs, j, b) == Place(ds, p, b);
    assert Byte(ms, j, b) == MemByte(file, mem, ts, p, b);
  }

  lemma WriteUnselected(objs: Objects, ds: Dset, file: Space, mem: Space, info: ChunkInfo, ops: seq<Op>,
                    buf: seq<byte>, p: Coord, b: nat)
    requires Writable(ds, file, mem, info, ops, |buf|) && InExtent(p, ds.dims) && b < ds.typeSize
    requires ChunkOf(p, GridOf(ds)) == info.coords && p !in file.pts
    ensures DatasetByte(AfterChunk(objs, ds, info, ops, buf), ds, p, b) == DatasetByte(objs, ds, p, b)
  {
    hide WriteOps;
    hide PairsElements;
    var ts, key := ds.typeSize, KeyAt(ds, info.coords);
    NotWritten(info, ds, file, mem, p, b);
    WriteOutside(ObjAt(objs, key), ops, buf, Starts(info.mspace, ts), Starts(info.fspace, ts), ts, Place(ds, p, b));
  }

  lemma WriteElsewhere(objs: Objects, ds: Dset, file: Space, mem: Space, info: ChunkInfo, ops: seq<Op>,
                    buf: seq<byte>, p: Coord, b: nat)
    requires Writable(ds, file, mem, info, ops, |buf|) && InExtent(p, ds.dims) && b < ds.typeSize
    requires ChunkOf(p, GridOf(ds)) != info.coords
    ensures DatasetByte(AfterChunk(objs, ds, info, ops, buf), ds, p, b) == DatasetByte(objs, ds, p, b)
  {
    CornerLocOk(ds, p);
    OtherChunkKey(ds, ChunkOf(p, GridOf(ds)), info.coords);
  }

  /** Writing one chunk updates the selected points of that chunk and no others. */
  lemma WriteChunk(before: Objects, objs: Objects, ds: Dset, file: Space, mem: Space, info: ChunkInfo,
                   ops: seq<Op>, buf: seq<byte>, done: set<Coord>)
    requires Writable(ds, file, mem, info, ops, |buf|)
    requires Updated(before, objs, ds, file, mem, buf, done)
    ensures Updated(before, AfterChunk(objs, ds, info, ops, buf), ds, file, mem, buf, done + {info.coords})
  {
    var now := AfterChunk(objs, ds, info, ops, buf);
    hide AfterChunk;
    hide DatasetByte;
    hide Piece;
    hide MemByte;
    forall p, b: nat | InExtent(p, ds.dims) && b < ds.typeSize
      ensures DatasetByte(now, ds, p, b) == Expected(before, ds, file, mem, buf, done + {info.coords}, p, b)
    {
      if ChunkOf(p, GridOf(ds)) != info.coords {
        WriteElsewhere(objs, ds, file, mem, info, ops, buf, p, b);
      } else if p in file.pts {
        WriteSelected(objs, ds, file, mem, info, ops, buf, p, b);
      } else {
        WriteUnselected(objs, ds, file, mem, info, ops, buf, p, b);
      }
    }
  }

  /** A write to one chunk leaves every object under another key alone. */
  lemma WriteChunkKeeps(before: Objects, objs: Objects, ds: Dset, file: Space, mem: Space, info: ChunkInfo,
                        ops: seq<Op>, buf: seq<byte>)
    requires Writable(ds, file, mem, info, ops, |buf|) && OthersKept(before, objs, ds)
    ensures OthersKept(before, AfterChunk(objs, ds, info, ops, buf), ds)
  {
    assert OwnKey(ds, KeyAt(ds, info.coords));
  }

  // ----- all chunks -----

  /** The entries cover the selection: each is a piece of it, and each selected point is in one. */
  ghost predicate Pieces(infos: seq<ChunkInfo>, ds: Dset, file: Space, mem: Space) {
    && ds.Valid() && file.Valid() && mem.Valid() && |file.pts| == |mem.pts| && file.dims == ds.dims
    && (forall i :: 0 <= i < |infos| ==> Piece(infos[i], GridOf(ds), file, mem))
    && (forall k :: 0 <= k < |file.pts| ==> Listed(infos, ChunkOf(file.pts[k], GridOf(ds))))
  }

  ghost function Corners(infos: seq<ChunkInfo>): set<Coord> {
    set i | 0 <= i < |infos| :: infos[i].coords
  }

  /** The meaning of a write on the flat array: selected points take their memory values, all
      other points stay as they were. */
  ghost predicate Written(before: Objects, now: Objects, ds: Dset, file: Space, mem: Space, buf: seq<byte>)
    requires ds.Valid() && file.Valid() && mem.Valid() && |file.pts| == |mem.pts|
    requires file.dims == ds.dims && BufferFits(mem, ds.typeSize, |buf|)
  {
    && (forall k: nat, b: nat :: k < |file.pts| && b < ds.typeSize ==>
          DatasetByte(now, ds, file.pts[k], b) == MemValue(mem, ds.typeSize, buf, k, b))
    && (forall p, b: nat :: InExtent(p, ds.dims) && b < ds.typeSize && p !in file.pts ==>
          DatasetByte(now, ds, p, b) == DatasetByte(before, ds, p, b))
  }

  /** Byte b of the k-th selected memory element. */
  ghost function MemValue(mem: Space, typeSize: nat, buf: seq<byte>, k: nat, b: nat): byte
    requires mem.Valid() && k < |mem.pts| && b < typeSize && BufferFits(mem, typeSize, |buf|)
  {
    ElementFits(mem, typeSize, |buf|, k);
    buf[Byte(Starts(mem, typeSize), k, b)]
  }

  lemma AllUpdated(before: Objects, now: Objects, ds: Dset, file: Space, mem: Space, buf: seq<byte>, infos: seq<ChunkInfo>)
    requires Pieces(infos, ds, file, mem) && BufferFits(mem, ds.typeSize, |buf|)
    requires Updated(before, now, ds, file, mem, buf, Corners(infos))
    ensures Written(before, now, ds, file, mem, buf)
  {
    hide DatasetByte;
    hide Piece;
    forall k: nat, b: nat | k < |file.pts| && b < ds.typeSize
      ensures DatasetByte(now, ds, file.pts[k], b) == MemValue(mem, ds.typeSize, buf, k, b)
    {
      var p := file.pts[k];
      assert Listed(infos, ChunkOf(p, GridOf(ds)));
      IndexUnique(file.pts, k);
      assert DatasetByte(now, ds, p, b) == Expected(before, ds, file, mem, buf, Corners(infos), p, b);
    }
    forall p, b: nat | InExtent(p, ds.dims) && b < ds.typeSize && p !in file.pts
      ensures DatasetByte(now, ds, p, b) == DatasetByte(before, ds, p, b)
    {
      assert DatasetByte(now, ds, p, b) == Expected(before, ds, file, mem, buf, Corners(infos), p, b);
    }
  }

  // ----- the entries of the two layouts -----

  lemma InsideIndex(grid: seq<nat>, file: Space, mem: Space, c: Coord, j: nat)
    requires Compatible(file, mem, grid) && file.pts != [] && mem.pts != [] && SameShape(file, mem)
    requires Corner(c, grid) && j < |InfoAt(file, mem, grid, c).fspace.pts|
    ensures HasIndex(InfoAt(file, mem, grid, c), grid, file, mem, j)
  {
    InfoPoints(file, mem, grid, c);
    var p := Within(file.pts, c, grid)[j];
    WithinMembers(file.pts, c, grid, p);
    InBoxIffChunkOf(p, c, grid);
    var k: nat :| k < |file.pts| && file.pts[k] == p;
    assert mem.pts[k] == Sub(p, Shift(file, mem));
    assert SamePoint(InfoAt(file, mem, grid, c), grid, file, mem, j, k);
  }

  lemma InsideEntry(grid: seq<nat>, file: Space, mem: Space, c: Coord, k: nat)
    requires Compatible(file, mem, grid) && file.pts != [] && mem.pts != [] && SameShape(file, mem)
    requires Corner(c, grid) && k < |file.pts| && ChunkOf(file.pts[k], grid) == c
    ensures HasEntry(InfoAt(file, mem, grid, c), grid, file, mem, k)
  {
    InfoPoints(file, mem, grid, c);
    var inside, p := Within(file.pts, c, grid), file.pts[k];
    WithinMembers(file.pts, c, grid, p);
    var j: nat :| j < |inside| && inside[j] == p;
    assert mem.pts[k] == Sub(p, Shift(file, mem));
    assert SamePoint(InfoAt(file, mem, grid, c), grid, file, mem, j, k);
  }

  /** The entries of the chunk enumeration are pieces of the selections. */
  lemma ChunkedPiece(ds: Dset, file: Space, mem: Space, c: Coord)
    requires ds.Valid() && Compatible(file, mem, GridOf(ds)) && file.dims == ds.dims
    requires file.pts != [] && mem.pts != [] && SameShape(file, mem)
    requires Corner(c, GridOf(ds)) && Meets(file.pts, GridOf(ds), c)
    ensures Piece(InfoAt(file, mem, GridOf(ds), c), GridOf(ds), file, mem)
  {
    var grid := GridOf(ds);
    var info := InfoAt(file, mem, grid, c);
    InfoPoints(file, mem, grid, c);
    InfoValid(file, mem, grid, c);
    var i: nat :| i < |file.pts| && ChunkOf(file.pts[i], grid) == c;
    CornerLocOk(ds, file.pts[i]);
    InsideEntry(grid, file, mem, c, i);
    hide InfoAt;
    forall j: nat | j < |info.fspace.pts| ensures HasIndex(info, grid, file, mem, j) {
      InsideIndex(grid, file, mem, c, j);
    }
    forall k: nat | k < |file.pts| && ChunkOf(file.pts[k], grid) == c ensures HasEntry(info, grid, file, mem, k) {
      InsideEntry(grid, file, mem, c, k);
    }
  }

  lemma ChunkedPieces(infos: seq<ChunkInfo>, ds: Dset, file: Space, mem: Space)
    requires ds.Valid() && Compatible(file, mem, GridOf(ds)) && file.dims == ds.dims
    requires file.pts != [] && mem.pts != [] && SameShape(file, mem)
    requires ChunkList(infos, file, mem, GridOf(ds))
    ensures Pieces(infos, ds, file, mem)
  {
    hide Piece;
    hide InfoAt;
    forall i | 0 <= i < |infos| ensures Piece(infos[i], GridOf(ds), file, mem) {
      ChunkedPiece(ds, file, mem, infos[i].coords);
    }
  }

  function Origin(n: nat): (c: Coord)
    ensures |c| == n
  {
    seq(n, _ => 0)
  }

  /** In a grid of a single chunk every point lies in the chunk at the origin. */
  lemma SingleChunk(p: Coord, dims: seq<nat>)
    requires InExtent(p, dims) && ChunkShape(dims)
    ensures ChunkOf(p, dims) == Origin(|dims|) && Sub(p, Origin(|dims|)) == p
  {
    assert Corner(Origin(|dims|), dims);
    InBoxIffChunkOf(p, Origin(|dims|), dims);
  }

  lemma OwnIndex(grid: seq<nat>, file: Space, mem: Space, k: nat)
    requires ChunkShape(grid) && file.Valid() && file.dims == grid && |file.pts| == |mem.pts| && k < |file.pts|
    ensures SamePoint(ChunkInfo(Origin(|grid|), file, mem), grid, file, mem, k, k)
  {
    SingleChunk(file.pts[k], grid);
  }

  /** The single entry of a contiguous dataset is a piece: all of the selections. */
  lemma ContiguousPiece(grid: seq<nat>, file: Space, mem: Space)
    requires ChunkShape(grid) && file.Valid() && mem.Valid() && file.dims == grid && |file.pts| == |mem.pts|
    requires |grid| <= MAX_RANK && file.pts != []
    ensures Piece(ChunkInfo(Origin(|grid|), file, mem), grid, file, mem)
  {
    var info := ChunkInfo(Origin(|grid|), file, mem);
    forall k: nat | k < |file.pts| ensures HasIndex(info, grid, file, mem, k) {
      OwnIndex(grid, file, mem, k);
    }
    forall k: nat | k < |file.pts| ensures HasEntry(info, grid, file, mem, k) {
      OwnIndex(grid, file, mem, k);
    }
  }

  lemma ContiguousPieces(ds: Dset, file: Space, mem: Space)
    requires ds.Valid() && ds.layout.Contiguous? && file.dims == ds.dims
    requires file.Valid() && mem.Valid() && |file.pts| == |mem.pts| && file.pts != []
    ensures Pieces([ChunkInfo(Origin(|ds.dims|), file, mem)], ds, file, mem)
  {
    var infos := [ChunkInfo(Origin(|ds.dims|), file, mem)];
    assert InExtent(file.pts[0], ds.dims);
    assert GridOf(ds) == ds.dims;
    ContiguousPiece(ds.dims, file, mem);
    hide Piece;
    forall k | 0 <= k < |file.pts| ensures Listed(infos, ChunkOf(file.pts[k], ds.dims)) {
      SingleChunk(file.pts[k], ds.dims);
      assert infos[0].coords == ChunkOf(file.pts[k], ds.dims);
    }
  }

  lemma NoShift(file: Space, n: nat)
    requires file.Valid() && file.pts != [] && |file.dims| == n && OfRank(file.pts, n)
    ensures Shift(file, file) == Origin(n)
  {
    hide Lo, Space.Valid;
  }

  /** When memory and file space are the same and one chunk covers the whole extent, that
      chunk's two selections coincide, and with them their run lists. */
  lemma MatchingSelections(infos: seq<ChunkInfo>, ds: Dset, file: Space)
    requires ds.Valid() && Compatible(file, file, GridOf(ds)) && file.pts != []
    requires ChunkList(infos, file, file, GridOf(ds))
    requires |infos| == 1 && infos[0].fspace.dims == file.dims == ds.dims
    ensures infos[0].fspace == infos[0].mspace
  {
    var c, grid := infos[0].coords, GridOf(ds);
    CompatibleRank(file, file, grid);
    assert infos[0] == InfoAt(file, file, grid, c);
    InfoPoints(file, file, grid, c);
    assert grid == file.dims == ds.dims;
    var i :| 0 <= i < |file.pts| && ChunkOf(file.pts[i], grid) == c;
    assert InExtent(file.pts[i], grid);
    SingleChunk(file.pts[i], grid);
    NoShift(file, |grid|);
    hide *;
  }

  // ----- reading -----

  /** What the read buffer holds once the chunks in `done` have been read. */
  ghost predicate ReadSoFar(objs: Objects, ds: Dset, file: Space, mem: Space, was: seq<byte>, now: seq<byte>,
                            done: set<Coord>)
    requires ds.Valid() && file.Valid() && mem.Valid() && |file.pts| == |mem.pts| && file.dims == ds.dims
    requires BufferFits(mem, ds.typeSize, |was|)
  {
    && |now| == |was|
    && (forall k: nat, b: nat :: k < |file.pts| && b < ds.typeSize ==>
          MemValue(mem, ds.typeSize, now, k, b) ==
          (if ChunkOf(file.pts[k], GridOf(ds)) in done then DatasetByte(objs, ds, file.pts[k], b)
           else MemValue(mem, ds.typeSize, was, k, b)))
    && (forall m: nat :: m < |now| && !Covered(Starts(mem, ds.typeSize), ds.typeSize, m) ==> now[m] == was[m])
  }

  /** The meaning of a read: selected memory elements take the values of the flat array, and the
      rest of the buffer stays as it was. */
  ghost predicate ReadBack(objs: Objects, ds: Dset, file: Space, mem: Space, was: seq<byte>, now: seq<byte>)
    requires ds.Valid() && file.Valid() && mem.Valid() && |file.pts| == |mem.pts| && file.dims == ds.dims
    requires BufferFits(mem, ds.typeSize, |was|)
  {
    && |now| == |was|
    && (forall k: nat, b: nat :: k < |file.pts| && b < ds.typeSize ==>
          MemValue(mem, ds.typeSize, now, k, b) == DatasetByte(objs, ds, file.pts[k], b))
    && (forall m: nat :: m < |now| && !Covered(Starts(mem, ds.typeSize), ds.typeSize, m) ==> now[m] == was[m])
  }

  /** A memory element of another chunk is not touched by this chunk's plan. */
  lemma NotRead(info: ChunkInfo, ds: Dset, file: Space, mem: Space, k: nat, b: nat)
    requires ds.Valid() && file.Valid() && mem.Valid() && |file.pts| == |mem.pts| && file.dims == ds.dims
    requires Piece(info, GridOf(ds), file, mem) && k < |file.pts| && b < ds.typeSize
    requires ChunkOf(file.pts[k], GridOf(ds)) != info.coords
    ensures !Covered(Starts(info.mspace, ds.typeSize), ds.typeSize, Byte(Starts(mem, ds.typeSize), k, b))
  {
    var ts, starts := ds.typeSize, Starts(mem, ds.typeSize);
    StartsSpaced(mem, ts);
    forall j: nat | j < |info.mspace.pts|
      ensures !(Starts(info.mspace, ts)[j] <= starts[k] + b < Starts(info.mspace, ts)[j] + ts)
    {
      assert HasIndex(info, GridOf(ds), file, mem, j);
      var i: nat :| SamePoint(info, GridOf(ds), file, mem, j, i);
      assert Starts(info.mspace, ts)[j] == starts[i] && i != k;
      assert i < k ==> starts[i] + ts <= starts[k];
      assert k < i ==> starts[k] + ts <= starts[i];
    }
  }

  lemma CoveredByAll(info: ChunkInfo, ds: Dset, file: Space, mem: Space, m: nat)
    requires ds.Valid() && mem.Valid() && Piece(info, GridOf(ds), file, mem)
    requires !Covered(Starts(mem, ds.typeSize), ds.typeSize, m)
    ensures !Covered(Starts(info.mspace, ds.typeSize), ds.typeSize, m)
  {
    var ts := ds.typeSize;
    forall j: nat | j < |info.mspace.pts|
      ensures !(Starts(info.mspace, ts)[j] <= m < Starts(info.mspace, ts)[j] + ts)
    {
      assert HasIndex(info, GridOf(ds), file, mem, j);
      var i: nat :| SamePoint(info, GridOf(ds), file, mem, j, i);
      assert Starts(info.mspace, ts)[j] == Starts(mem, ts)[i];
    }
  }

  /** Byte b of the k-th memory element after reading the chunk that the k-th file point is in. */
  lemma ReadSelected(obj: Content, info: ChunkInfo, ds: Dset, file: Space, mem: Space, ops: seq<Op>,
                     buf: seq<byte>, k: nat, b: nat)
    requires Writable(ds, file, mem, info, ops, |buf|) && file.dims == ds.dims && k < |file.pts| && b < ds.typeSize
    requires ChunkOf(file.pts[k], GridOf(ds)) == info.coords
    ensures MemValue(mem, ds.typeSize, ReadOps(obj, ops, buf), k, b)
         == ByteAt(obj, Place(ds, file.pts[k], b))
  {
    hide ReadOps;
    hide PairsElements;
    var ts := ds.typeSize;
    var ms, fs := Starts(info.mspace, ts), Starts(info.fspace, ts);
    assert HasEntry(info, GridOf(ds), file, mem, k);
    var j: nat :| SamePoint(info, GridOf(ds), file, mem, j, k);
    ElementFits(mem, ts, |buf|, k);
    assert Byte(ms, j, b) == Byte(Starts(mem, ts), k, b);
    ReadElement(obj, ops, buf, ms, fs, ts, j, b);
    assert Byte(fs, j, b) == Place(ds, file.pts[k], b);
  }

  lemma ReadUnselected(obj: Content, info: ChunkInfo, ds: Dset, file: Space, mem: Space, ops: seq<Op>,
                       buf: seq<byte>, m: nat)
    requires Writable(ds, file, mem, info, ops, |buf|) && m < |buf|
    requires !Covered(Starts(info.mspace, ds.typeSize), ds.typeSize, m)
    ensures ReadOps(obj, ops, buf)[m] == buf[m]
  {
    hide ReadOps;
    hide PairsElements;
    var ts := ds.typeSize;
    ReadOutside(obj, ops, buf, Starts(info.mspace, ts), Starts(info.fspace, ts), ts, m);
  }

  /** Reading one chunk fills in the elements of that chunk and no others. */
  lemma ReadChunk(objs: Objects, ds: Dset, file: Space, mem: Space, info: ChunkInfo,
                  ops: seq<Op>, was: seq<byte>, buf: seq<byte>, done: set<Coord>)
    requires Writable(ds, file, mem, info, ops, |was|) && file.dims == ds.dims
    requires ReadSoFar(objs, ds, file, mem, was, buf, done)
    ensures ReadSoFar(objs, ds, file, mem, was,
                      ReadOps(ObjAt(objs, KeyAt(ds, info.coords)), ops, buf), done + {info.coords})
  {
    var ts, obj := ds.typeSize, ObjAt(objs, KeyAt(ds, info.coords));
    var now := ReadOps(obj, ops, buf);
    hide Piece;
    hide ReadOps;
    forall k: nat, b: nat | k < |file.pts| && b < ts
      ensures MemValue(mem, ts, now, k, b) ==
        (if ChunkOf(file.pts[k], GridOf(ds)) in done + {info.coords} then DatasetByte(objs, ds, file.pts[k], b)
         else MemValue(mem, ts, was, k, b))
    {
      if ChunkOf(file.pts[k], GridOf(ds)) == info.coords {
        ReadSelected(obj, info, ds, file, mem, ops, buf, k, b);
      } else {
        NotRead(info, ds, file, mem, k, b);
        ElementFits(mem, ts, |buf|, k);
        ReadUnselected(obj, info, ds, file, mem, ops, buf, Byte(Starts(mem, ts), k, b));
        assert MemValue(mem, ts, now, k, b) == MemValue(mem, ts, buf, k, b);
      }
    }
    forall m: nat | m < |now| && !Covered(Starts(mem, ts), ts, m) ensures now[m] == was[m] {
      CoveredByAll(info, ds, file, mem, m);
      ReadUnselected(obj, info, ds, file, mem, ops, buf, m);
    }
  }

  lemma AllRead(objs: Objects, ds: Dset, file: Space, mem: Space, was: seq<byte>, now: seq<byte>, infos: seq<ChunkInfo>)
    requires Pieces(infos, ds, file, mem) && BufferFits(mem, ds.typeSize, |was|)
    requires ReadSoFar(objs, ds, file, mem, was, now, Corners(infos))
    ensures ReadBack(objs, ds, file, mem, was, now)
  {
    hide DatasetByte;
    hide Piece;
    forall k: nat, b: nat | k < |file.pts| && b < ds.typeSize
      ensures MemValue(mem, ds.typeSize, now, k, b) == DatasetByte(objs, ds, file.pts[k], b)
    {
      assert Listed(infos, ChunkOf(file.pts[k], GridOf(ds)));
    }
  }

  /** A read with the selections of a write returns the memory that was written. */
  lemma ReadAfterWrite(before: Objects, now: Objects, ds: Dset, file: Space, mem: Space,
                       buf: seq<byte>, was: seq<byte>, read: seq<byte>)
    requires ds.Valid() && file.Valid() && mem.Valid() && |file.pts| == |mem.pts| && file.dims == ds.dims
    requires BufferFits(mem, ds.typeSize, |buf|) && BufferFits(mem, ds.typeSize, |was|)
    requires Written(before, now, ds, file, mem, buf)
    requires ReadBack(now, ds, file, mem, was, read)
    ensures forall m: nat :: Covered(Starts(mem, ds.typeSize), ds.typeSize, m) ==>
      m < |read| && m < |buf| && read[m] == buf[m]
    ensures forall m: nat :: m < |read| && !Covered(Starts(mem, ds.typeSize), ds.typeSize, m) ==> read[m] == was[m]
  {
    hide DatasetByte;
    var ts, starts := ds.typeSize, Starts(mem, ds.typeSize);
    forall m: nat | Covered(starts, ts, m) ensures m < |read| && m < |buf| && read[m] == buf[m] {
      var k: nat :| k < |starts| && starts[k] <= m < starts[k] + ts;
      var b := m - starts[k];
      ElementFits(mem, ts, |buf|, k);
      ElementFits(mem, ts, |was|, k);
      assert MemValue(mem, ts, read, k, b) == DatasetByte(now, ds, file.pts[k], b) == MemValue(mem, ts, buf, k, b);
    }
  }

  /** A write to one dataset changes no byte of any other dataset, of the same file or another. */
  lemma OtherDatasetKept(before: Objects, now: Objects, ds: Dset, other: Dset, p: Coord, b: nat)
    requires ds.Valid() && other.Valid() && (ds.file != other.file || ds.oid != other.oid)
    requires OthersKept(before, now, ds)
    requires InExtent(p, other.dims)
    ensures DatasetByte(now, other, p, b) == DatasetByte(before, other, p, b)
  {
    CornerLocOk(other, p);
    var c := ChunkOf(p, GridOf(other));
    if OwnKey(ds, KeyAt(other, c)) {
      var e :| LocOk(e) && KeyAt(other, c) == KeyAt(ds, e);
      KeysDistinct(Chunk(other.file, other.oid, c), Chunk(ds.file, ds.oid, e));
      assert false;
    }
  }

  /** Nor does it change the metadata of any object: no chunk is stored under an object's key. */
  lemma MetadataKept(before: Objects, now: Objects, ds: Dset, file: string, oid: uint64)
    requires ds.Valid() && OthersKept(before, now, ds)
    ensures ObjAt(now, ObjectKey(file, oid)) == ObjAt(before, ObjectKey(file, oid))
  {
    if OwnKey(ds, ObjectKey(file, oid)) {
      var c :| LocOk(c) && ObjectKey(file, oid) == KeyAt(ds, c);
      KeysDistinct(Object(file, oid), Chunk(ds.file, ds.oid, c));
      assert false;
    }
  }
}
