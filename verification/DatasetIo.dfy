/** The write and read calls on a dataset: split the selections by chunk, plan each chunk's
    transfer, and carry it out on the object stored under that chunk's key. */
module DatasetIo {
  import opened Codec
  import opened Keys
  import opened Grid
  import opened Runs
  import opened IoPlan
  import opened Dataspace
  import opened ChunkEnum
  import opened Transfer
  import opened FlatArray

  datatype Status = Done | NoWriteIntent | SizeMismatch | ShapeMismatch

  /** A dataspace argument: H5S_ALL or a space with a selection. */
  datatype SpaceArg = All | Given(space: Space)

  /** The object store, as far as dataset contents are concerned. */
  class ObjectStore {
    var objects: Objects

    constructor ()
      ensures objects == map[]
    {
      objects := map[];
    }

    /** dtio_write_op_operate: the pieces of a write operation, in order. */
    method WriteOperate(key: string, ops: seq<Op>, buf: seq<byte>)
      requires Fits(ops, |buf|)
      modifies this
      ensures objects == old(objects)[key := WriteOps(ObjAt(old(objects), key), ops, buf)]
    {
      var obj := ObjAt(objects, key);
      var i := 0;
      while i < |ops|
        invariant i <= |ops| && Fits(ops[i..], |buf|)
        invariant objects == old(objects)
        invariant WriteOps(obj, ops[i..], buf) == WriteOps(ObjAt(objects, key), ops, buf)
      {
        FitsTail(ops[i..], |buf|);
        obj := WriteOne(obj, ops[i], buf);
        assert ops[i..][1..] == ops[i + 1..];
        i := i + 1;
      }
      objects := objects[key := obj];
    }

    /** dtio_read_op_operate: the pieces of a read operation, in order. */
    method ReadOperate(key: string, ops: seq<Op>, buf: array<byte>)
      modifies buf
      ensures buf[..] == ReadOps(ObjAt(objects, key), ops, old(buf[..]))
    {
      var obj := ObjAt(objects, key);
      ghost var was := buf[..];
      var i := 0;
      while i < |ops|
        invariant i <= |ops|
        invariant ReadOps(obj, ops[i..], buf[..]) == ReadOps(obj, ops, was)
      {
        ghost var cur := buf[..];
        var now := ReadOne(obj, ops[i], buf[..]);
        forall m | 0 <= m < buf.Length {
          buf[m] := now[m];
        }
        assert buf[..] == ReadOne(obj, ops[i], cur);
        assert ops[i..][1..] == ops[i + 1..];
        i := i + 1;
      }
    }
  }

  function RealFile(ds: Dset, file: SpaceArg): Space {
    match file
    case All => Space(ds.dims, AllPoints(ds.dims))
    case Given(space) => space
  }

  function RealMem(ds: Dset, file: SpaceArg, mem: SpaceArg): Space {
    match mem
    case All => RealFile(ds, file)
    case Given(space) => space
  }

  /** What the caller must supply: valid spaces, a file space of the dataset's extent, for a
      chunked dataset a memory space of its rank, and a buffer for the memory extent. */
  ghost predicate ArgsOk(ds: Dset, file: SpaceArg, mem: SpaceArg, n: nat) {
    && ds.Valid()
    && (file.Given? ==> file.space.Valid() && file.space.dims == ds.dims)
    && (mem.Given? ==> mem.space.Valid() && (ds.layout.Chunked? ==> |mem.space.dims| == |ds.dims|))
    && BufferFits(RealMem(ds, file, mem), ds.typeSize, n)
  }

  lemma RealSpacesValid(ds: Dset, file: SpaceArg, mem: SpaceArg, n: nat)
    requires ArgsOk(ds, file, mem, n)
    ensures RealFile(ds, file).Valid() && RealFile(ds, file).dims == ds.dims
    ensures RealMem(ds, file, mem).Valid()
    ensures ds.layout.Chunked? ==> Compatible(RealFile(ds, file), RealMem(ds, file, mem), GridOf(ds))
  {
    AllPointsValid(ds.dims);
  }

  /** A chunked transfer needs two selections of one shape. */
  ghost predicate ShapesAgree(ds: Dset, file: Space, mem: Space) {
    ds.layout.Chunked? ==> file.pts != [] && exists v :: Moved(file.pts, mem.pts, v)
  }

  // ----- what the two dataspace arguments mean -----

  /** How many points are selected in the file: for H5S_ALL every one. */
  function FileCount(dims: seq<nat>, file: SpaceArg): nat {
    match file
    case All => Size(dims)
    case Given(space) => |space.pts|
  }

  function MemCount(dims: seq<nat>, file: SpaceArg, mem: SpaceArg): nat {
    match mem
    case All => FileCount(dims, file)
    case Given(space) => |space.pts|
  }

  function MemDims(dims: seq<nat>, mem: SpaceArg): seq<nat> {
    match mem
    case All => dims
    case Given(space) => space.dims
  }

  /** Point p of the file goes with point q of memory. H5S_ALL is every point in row-major order for
      the file, and the file's own points for memory. */
  ghost predicate Together(dims: seq<nat>, file: SpaceArg, mem: SpaceArg, p: Coord, q: Coord) {
    InExtent(p, dims) && InExtent(q, MemDims(dims, mem)) &&
    match (file, mem)
    case (All, All) => q == p
    case (Given(s), All) => p in s.pts && q == p
    case (All, Given(m)) => Linear(p, dims) < |m.pts| && q == m.pts[Linear(p, dims)]
    case (Given(s), Given(m)) => exists k :: 0 <= k < |s.pts| && k < |m.pts| && s.pts[k] == p && m.pts[k] == q
  }

  /** All points of memory lie one and the same way from their points of the file. */
  ghost predicate MovesBy(dims: seq<nat>, file: SpaceArg, mem: SpaceArg, v: Coord) {
    forall p, q :: Together(dims, file, mem, p, q) ==>
      |p| == |q| == |v| && forall d :: 0 <= d < |v| ==> q[d] == p[d] - v[d]
  }

  ghost predicate Selected(dims: seq<nat>, file: SpaceArg, p: Coord) {
    match file
    case All => InExtent(p, dims)
    case Given(space) => p in space.pts
  }

  /** Where byte b of the element at a point of memory is in the buffer. */
  function BufferOffset(q: Coord, dims: seq<nat>, typeSize: nat, b: nat): nat
    requires InExtent(q, dims)
  {
    Linear(q, dims) * typeSize + b
  }

  /** What a write means: each selected point of the file has the bytes of its point of memory, and
      every other point those from before. */
  ghost predicate Wrote(before: Objects, now: Objects, ds: Dset, file: SpaceArg, mem: SpaceArg, buf: seq<byte>)
    requires ds.Valid()
  {
    var mdims, size := MemDims(ds.dims, mem), ds.typeSize;
    && (forall p, q, b: nat :: Together(ds.dims, file, mem, p, q) && b < size ==>
          && BufferOffset(q, mdims, size, b) < |buf|
          && DatasetByte(now, ds, p, b) == buf[BufferOffset(q, mdims, size, b)])
    && (forall p, b: nat :: InExtent(p, ds.dims) && !Selected(ds.dims, file, p) && b < size ==>
          DatasetByte(now, ds, p, b) == DatasetByte(before, ds, p, b))
  }

  /** What a read means: each selected point of memory gets the bytes of its point of the file, and
      the rest of the buffer stays. */
  ghost predicate DidRead(objs: Objects, ds: Dset, file: SpaceArg, mem: SpaceArg, was: seq<byte>, now: seq<byte>)
    requires ds.Valid()
  {
    var mdims, size := MemDims(ds.dims, mem), ds.typeSize;
    && |now| == |was|
    && (forall p, q, b: nat :: Together(ds.dims, file, mem, p, q) && b < size ==>
          && BufferOffset(q, mdims, size, b) < |now|
          && now[BufferOffset(q, mdims, size, b)] == DatasetByte(objs, ds, p, b))
    && (forall at: nat :: at < |now| && Untouched(ds, file, mem, at) ==> now[at] == was[at])
  }

  /** No selected element covers the byte of the buffer. */
  ghost predicate Untouched(ds: Dset, file: SpaceArg, mem: SpaceArg, at: nat) {
    var mdims, size := MemDims(ds.dims, mem), ds.typeSize;
    forall p, q :: Together(ds.dims, file, mem, p, q) ==>
      !(BufferOffset(q, mdims, size, 0) <= at < BufferOffset(q, mdims, size, size))
  }

  lemma RealCounts(ds: Dset, file: SpaceArg, mem: SpaceArg)
    ensures |RealFile(ds, file).pts| == FileCount(ds.dims, file)
    ensures |RealMem(ds, file, mem).pts| == MemCount(ds.dims, file, mem)
  {
    AllPointsCount(ds.dims);
  }

  lemma RealDims(ds: Dset, file: SpaceArg, mem: SpaceArg, n: nat)
    requires ArgsOk(ds, file, mem, n)
    ensures RealMem(ds, file, mem).dims == MemDims(ds.dims, mem)
  {
  }

  lemma RealSelected(ds: Dset, file: SpaceArg, p: Coord)
    ensures p in RealFile(ds, file).pts <==> Selected(ds.dims, file, p)
  {
    AllPointsMembers(ds.dims, p);
  }

  lemma PlaceOfPoint(dims: seq<nat>, k: nat)
    requires k < |AllPoints(dims)|
    ensures InExtent(AllPoints(dims)[k], dims) && Linear(AllPoints(dims)[k], dims) == k
  {
    var pts := AllPoints(dims);
    var p := pts[k];
    AllPointsMembers(dims, p);
    AllPointsLinear(dims, p);
    AllPointsValid(dims);
    IndexUnique(pts, k);
    IndexUnique(pts, Linear(p, dims));
  }

  /** The points that go together are those at one position of the two lists. */
  lemma RealTogether(ds: Dset, file: SpaceArg, mem: SpaceArg, n: nat, p: Coord, q: Coord)
    requires ArgsOk(ds, file, mem, n) && FileCount(ds.dims, file) == MemCount(ds.dims, file, mem)
    ensures var f, m := RealFile(ds, file).pts, RealMem(ds, file, mem).pts;
      |f| == |m| && (Together(ds.dims, file, mem, p, q) <==> exists k :: 0 <= k < |f| && f[k] == p && m[k] == q)
  {
    var f, m := RealFile(ds, file).pts, RealMem(ds, file, mem).pts;
    RealCounts(ds, file, mem);
    RealSpacesValid(ds, file, mem, n);
    RealDims(ds, file, mem, n);
    RealSelected(ds, file, p);
    if file.All? && mem.Given? {
      if InExtent(p, ds.dims) {
        AllPointsLinear(ds.dims, p);
      }
      if k :| 0 <= k < |f| && f[k] == p && m[k] == q {
        PlaceOfPoint(ds.dims, k);
      }
    }
    hide Size, AllPoints, Sorted, BufferFits;
  }

  lemma PairAt(ds: Dset, file: SpaceArg, mem: SpaceArg, n: nat, k: nat)
    requires ArgsOk(ds, file, mem, n) && FileCount(ds.dims, file) == MemCount(ds.dims, file, mem)
    requires k < FileCount(ds.dims, file)
    ensures var f, m := RealFile(ds, file).pts, RealMem(ds, file, mem).pts;
      |f| == |m| && k < |f| && Together(ds.dims, file, mem, f[k], m[k])
  {
    RealCounts(ds, file, mem);
    RealTogether(ds, file, mem, n, RealFile(ds, file).pts[k], RealMem(ds, file, mem).pts[k]);
    hide *;
  }

  /** Shapes agree exactly when memory lies one way from the file. */
  lemma ShapesIff(ds: Dset, file: SpaceArg, mem: SpaceArg, n: nat)
    requires ArgsOk(ds, file, mem, n)
    requires FileCount(ds.dims, file) == MemCount(ds.dims, file, mem) > 0
    ensures ShapesAgree(ds, RealFile(ds, file), RealMem(ds, file, mem)) <==>
      (ds.layout.Chunked? ==> exists v :: MovesBy(ds.dims, file, mem, v))
  {
    var f, m := RealFile(ds, file).pts, RealMem(ds, file, mem).pts;
    RealCounts(ds, file, mem);
    hide RealFile, RealMem, Together, FileCount, MemCount, ArgsOk;
    if v :| Moved(f, m, v) {
      forall p, q | Together(ds.dims, file, mem, p, q)
        ensures |p| == |q| == |v| && forall d :: 0 <= d < |v| ==> q[d] == p[d] - v[d]
      {
        RealTogether(ds, file, mem, n, p, q);
      }
      assert MovesBy(ds.dims, file, mem, v);
    }
    if v :| MovesBy(ds.dims, file, mem, v) {
      forall k: nat | k < |f| ensures Together(ds.dims, file, mem, f[k], m[k]) {
        PairAt(ds, file, mem, n, k);
      }
      assert Moved(f, m, v);
    }
  }

  lemma MemValueAt(mem: Space, typeSize: nat, buf: seq<byte>, k: nat, b: nat)
    requires mem.Valid() && BufferFits(mem, typeSize, |buf|) && k < |mem.pts| && b < typeSize
    ensures var at := BufferOffset(mem.pts[k], mem.dims, typeSize, b);
      at < |buf| && MemValue(mem, typeSize, buf, k, b) == buf[at]
  {
    ElementFits(mem, typeSize, |buf|, k);
  }

  /** Whatever holds of the values at every position holds of every two points that go together. */
  lemma ValueTogether(objs: Objects, ds: Dset, file: SpaceArg, mem: SpaceArg, buf: seq<byte>,
                      p: Coord, q: Coord, b: nat)
    requires ArgsOk(ds, file, mem, |buf|) && FileCount(ds.dims, file) == MemCount(ds.dims, file, mem)
    requires var f, m := RealFile(ds, file), RealMem(ds, file, mem);
      && |f.pts| == |m.pts| && f.Valid() && m.Valid() && f.dims == ds.dims
      && forall k: nat, b: nat :: k < |f.pts| && b < ds.typeSize ==>
           DatasetByte(objs, ds, f.pts[k], b) == MemValue(m, ds.typeSize, buf, k, b)
    requires Together(ds.dims, file, mem, p, q) && b < ds.typeSize
    ensures var at := BufferOffset(q, MemDims(ds.dims, mem), ds.typeSize, b);
      at < |buf| && DatasetByte(objs, ds, p, b) == buf[at]
  {
    var f, m := RealFile(ds, file), RealMem(ds, file, mem);
    RealDims(ds, file, mem, |buf|);
    RealTogether(ds, file, mem, |buf|, p, q);
    var k: nat :| k < |f.pts| && f.pts[k] == p && m.pts[k] == q;
    hide *;
    assert DatasetByte(objs, ds, f.pts[k], b) == MemValue(m, ds.typeSize, buf, k, b);
    MemValueAt(m, ds.typeSize, buf, k, b);
  }

  /** A write of the real spaces is what the arguments mean. */
  lemma WrittenIsWrote(before: Objects, now: Objects, ds: Dset, file: SpaceArg, mem: SpaceArg, buf: seq<byte>)
    requires ArgsOk(ds, file, mem, |buf|) && FileCount(ds.dims, file) == MemCount(ds.dims, file, mem)
    requires var f, m := RealFile(ds, file), RealMem(ds, file, mem);
      |f.pts| == |m.pts| && f.Valid() && m.Valid() && f.dims == ds.dims && Written(before, now, ds, f, m, buf)
    ensures Wrote(before, now, ds, file, mem, buf)
  {
    var mdims, size := MemDims(ds.dims, mem), ds.typeSize;
    forall p, q, b: nat | Together(ds.dims, file, mem, p, q) && b < size
      ensures BufferOffset(q, mdims, size, b) < |buf|
      ensures DatasetByte(now, ds, p, b) == buf[BufferOffset(q, mdims, size, b)]
    {
      ValueTogether(now, ds, file, mem, buf, p, q, b);
    }
    forall p, b: nat | InExtent(p, ds.dims) && !Selected(ds.dims, file, p) && b < ds.typeSize
      ensures DatasetByte(now, ds, p, b) == DatasetByte(before, ds, p, b)
    {
      RealSelected(ds, file, p);
    }
    hide DatasetByte, Together, BufferOffset, MemValue, RealFile, RealMem, Selected, ArgsOk, FileCount, MemCount;
  }

  lemma ReadBackIsDidRead(objs: Objects, ds: Dset, file: SpaceArg, mem: SpaceArg, was: seq<byte>, now: seq<byte>)
    requires ArgsOk(ds, file, mem, |was|) && FileCount(ds.dims, file) == MemCount(ds.dims, file, mem)
    requires var f, m := RealFile(ds, file), RealMem(ds, file, mem);
      |f.pts| == |m.pts| && f.Valid() && m.Valid() && f.dims == ds.dims && ReadBack(objs, ds, f, m, was, now)
    ensures DidRead(objs, ds, file, mem, was, now)
  {
    var mdims, size := MemDims(ds.dims, mem), ds.typeSize;
    forall p, q, b: nat | Together(ds.dims, file, mem, p, q) && b < size
      ensures BufferOffset(q, mdims, size, b) < |now|
      ensures now[BufferOffset(q, mdims, size, b)] == DatasetByte(objs, ds, p, b)
    {
      ValueTogether(objs, ds, file, mem, now, p, q, b);
    }
    forall at: nat | at < |now| && Untouched(ds, file, mem, at) ensures now[at] == was[at] {
      UntouchedNotCovered(ds, file, mem, |was|, at);
    }
    hide DatasetByte, Together, BufferOffset, MemValue, RealFile, RealMem, Untouched, ArgsOk, FileCount, MemCount;
    hide Covered;
  }

  lemma UntouchedNotCovered(ds: Dset, file: SpaceArg, mem: SpaceArg, n: nat, at: nat)
    requires ArgsOk(ds, file, mem, n) && FileCount(ds.dims, file) == MemCount(ds.dims, file, mem)
    requires Untouched(ds, file, mem, at)
    ensures RealMem(ds, file, mem).Valid() && !Covered(Starts(RealMem(ds, file, mem), ds.typeSize), ds.typeSize, at)
  {
    var m, size := RealMem(ds, file, mem), ds.typeSize;
    RealSpacesValid(ds, file, mem, n);
    RealDims(ds, file, mem, n);
    RealCounts(ds, file, mem);
    forall k: nat | k < |m.pts| ensures !(Starts(m, size)[k] <= at < Starts(m, size)[k] + size) {
      PairAt(ds, file, mem, n, k);
    }
    hide Together, RealFile, RealMem, Linear;
  }

  /** The outcome of a transfer, checked in the order the code checks. */
  ghost function Outcome(ds: Dset, file: SpaceArg, mem: SpaceArg, n: nat, write: bool): Status
    requires ArgsOk(ds, file, mem, n)
  {
    var count := FileCount(ds.dims, file);
    if write && !ds.writable then NoWriteIntent
    else if count != MemCount(ds.dims, file, mem) then SizeMismatch
    else if count == 0 then Done
    else if ds.layout.Chunked? && !(exists v :: MovesBy(ds.dims, file, mem, v)) then ShapeMismatch
    else Done
  }

  /** No chunk has two entries, and each entry has as many points as are selected in its chunk. */
  ghost predicate OneEach(infos: seq<ChunkInfo>, ds: Dset, file: Space)
    requires ds.Valid()
  {
    && (forall i, j :: 0 <= i < j < |infos| ==> infos[i].coords != infos[j].coords)
    && (forall i :: 0 <= i < |infos| ==> |infos[i].fspace.pts| == |Within(file.pts, infos[i].coords, GridOf(ds))|)
  }

  lemma ChunkedOneEach(infos: seq<ChunkInfo>, ds: Dset, file: Space, mem: Space)
    requires ds.Valid() && Compatible(file, mem, GridOf(ds)) && file.pts != [] && mem.pts != []
    requires ChunkList(infos, file, mem, GridOf(ds))
    ensures OneEach(infos, ds, file)
  {
    forall i | 0 <= i < |infos|
      ensures |infos[i].fspace.pts| == |Within(file.pts, infos[i].coords, GridOf(ds))|
    {
      InfoPoints(file, mem, GridOf(ds), infos[i].coords);
    }
    forall i, j | 0 <= i < j < |infos| ensures infos[i].coords != infos[j].coords {
      LessIrreflexive(infos[i].coords);
    }
    hide InfoAt, Within;
  }

  lemma {:induction false} AllWithin(pts: seq<Coord>, start: Coord, dims: seq<nat>)
    requires forall i :: 0 <= i < |pts| ==> InBox(pts[i], start, dims)
    ensures Within(pts, start, dims) == pts
  {
    if pts != [] {
      AllWithin(pts[1..], start, dims);
    }
  }

  lemma ContiguousOneEach(ds: Dset, file: Space, mem: Space)
    requires ds.Valid() && ds.layout.Contiguous? && file.dims == ds.dims && file.Valid() && file.pts != []
    ensures OneEach([ChunkInfo(Origin(|ds.dims|), file, mem)], ds, file)
  {
    var grid := GridOf(ds);
    assert InExtent(file.pts[0], ds.dims);
    assert grid == ds.dims;
    forall i | 0 <= i < |file.pts| ensures InBox(file.pts[i], Origin(|grid|), grid) {
      assert InExtent(file.pts[i], grid);
    }
    AllWithin(file.pts, Origin(|grid|), grid);
  }

  /** The entries to transfer: one for a contiguous dataset, else one for each chunk met. When
      memory is H5S_ALL and the only chunk has the file's extent, its two selections coincide. */
  method PrepareChunks(ds: Dset, file: Space, mem: Space, memAll: bool)
    returns (ok: bool, info: array<ChunkInfo>, len: nat)
    requires ds.Valid() && file.Valid() && mem.Valid() && file.dims == ds.dims
    requires |file.pts| == |mem.pts| && file.pts != [] && (memAll ==> mem == file)
    requires ds.layout.Chunked? ==> Compatible(file, mem, GridOf(ds))
    ensures ok <==> ShapesAgree(ds, file, mem)
    ensures ok ==> len <= info.Length && Pieces(info[..len], ds, file, mem) && OneEach(info[..len], ds, file)
    ensures ok && memAll && len == 1 && info[0].fspace.dims == file.dims ==> info[0].fspace == info[0].mspace
  {
    match ds.layout {
      case Contiguous =>
        info := new ChunkInfo[1](_ => ChunkInfo(Origin(|ds.dims|), file, mem));
        ok, len := true, 1;
        ContiguousPieces(ds, file, mem);
        ContiguousOneEach(ds, file, mem);
        assert info[..1] == [ChunkInfo(Origin(|ds.dims|), file, mem)];
      case Chunked(chunk) =>
        ok, info, len := GetSelectedChunkInfo(chunk, file, mem);
        if ok {
          ChunkedPieces(info[..len], ds, file, mem);
          ChunkedOneEach(info[..len], ds, file, mem);
          if memAll && len == 1 && info[0].fspace.dims == file.dims {
            assert info[..len] == [info[0]];
            MatchingSelections(info[..len], ds, file);
          }
        }
    }
  }

  /** Plans the transfer of one chunk, by the matching planner when the selections coincide. */
  method PlanChunk(info: ChunkInfo, typeSize: nat, matchSelect: bool, ghost grid: seq<nat>, ghost file: Space,
                   ghost mem: Space, ghost n: nat) returns (ops: seq<Op>)
    requires ChunkShape(grid) && Piece(info, grid, file, mem) && typeSize > 0 && BufferFits(mem, typeSize, n)
    requires matchSelect ==> info.fspace == info.mspace
    ensures IsPlan(ops, info, typeSize, n)
  {
    var numElem := |info.mspace.pts|;
    var f := Iterate(Starts(info.fspace, typeSize), typeSize);
    if matchSelect {
      PlanPairs(f, f, info, grid, file, mem, typeSize, n);
      ops := BuildIoOpMatch(f, numElem);
      MatchIsMerge(f.runs);
    } else {
      var m := Iterate(Starts(info.mspace, typeSize), typeSize);
      PlanPairs(m, f, info, grid, file, mem, typeSize, n);
      ops := BuildIoOpMerge(m, f, typeSize, numElem);
    }
  }

  /** The key of a chunk, in a buffer that is reused from chunk to chunk. */
  method ChunkKeyString(ds: Dset, c: Coord, oldBuf: array?<char>) returns (key: string, buf: array<char>)
    requires LocOk(c)
    requires oldBuf != null ==> oldBuf.Length == 2 + |ds.file| + 16 + |c| * 16 + 1
    modifies if oldBuf == null then {} else {oldBuf}
    ensures key == KeyAt(ds, c)
    ensures buf.Length == 2 + |ds.file| + 16 + |c| * 16 + 1
    ensures if oldBuf == null then fresh(buf) else buf == oldBuf
  {
    var ok;
    ok, buf := OidCreateChunk(ds.file, ds.oid, c, oldBuf);
    key := buf[..buf.Length - 1];
  }

  /** The write loop over the chunks. */
  method WriteChunks(store: ObjectStore, ds: Dset, file: Space, mem: Space, memAll: bool,
                     info: seq<ChunkInfo>, buf: seq<byte>)
    requires ds.Valid() && file.Valid() && mem.Valid() && |file.pts| == |mem.pts| && file.dims == ds.dims
    requires Pieces(info, ds, file, mem) && BufferFits(mem, ds.typeSize, |buf|)
    requires memAll && |info| == 1 && info[0].fspace.dims == file.dims ==> info[0].fspace == info[0].mspace
    modifies store
    ensures Written(old(store.objects), store.objects, ds, file, mem, buf)
    ensures OthersKept(old(store.objects), store.objects, ds)
  {
    hide *;
    ghost var before := store.objects;
    var oidBuf: array?<char> := null;
    var i := 0;
    NothingWritten(before, ds, file, mem, buf, info);
    while i < |info|
      invariant i <= |info|
      invariant oidBuf != null ==> fresh(oidBuf) && oidBuf.Length == 2 + |ds.file| + 16 + |ds.dims| * 16 + 1
      invariant Updated(before, store.objects, ds, file, mem, buf, Corners(info[..i]))
      invariant OthersKept(before, store.objects, ds)
    {
      oidBuf := WriteOneChunk(store, ds, file, mem, memAll, info, i, buf, oidBuf, before, Corners(info[..i]));
      CornersStep(info, i);
      i := i + 1;
    }
    assert info[..i] == info;
    AllUpdated(before, store.objects, ds, file, mem, buf, info);
  }

  method WriteOneChunk(store: ObjectStore, ds: Dset, file: Space, mem: Space, memAll: bool, info: seq<ChunkInfo>, i: nat,
                       buf: seq<byte>, oldBuf: array?<char>, ghost before: Objects, ghost done: set<Coord>)
    returns (oidBuf: array<char>)
    requires Pieces(info, ds, file, mem) && BufferFits(mem, ds.typeSize, |buf|) && i < |info|
    requires memAll && |info| == 1 && info[0].fspace.dims == file.dims ==> info[0].fspace == info[0].mspace
    requires oldBuf != null ==> oldBuf.Length == 2 + |ds.file| + 16 + |ds.dims| * 16 + 1
    requires OthersKept(before, store.objects, ds)
    requires Updated(before, store.objects, ds, file, mem, buf, done)
    modifies store
    modifies if oldBuf == null then {} else {oldBuf}
    ensures oidBuf.Length == 2 + |ds.file| + 16 + |ds.dims| * 16 + 1
    ensures if oldBuf == null then fresh(oidBuf) else oidBuf == oldBuf
    ensures OthersKept(before, store.objects, ds)
    ensures Updated(before, store.objects, ds, file, mem, buf, done + {info[i].coords})
  {
    ghost var objs := store.objects;
    var key;
    key, oidBuf := ChunkKeyString(ds, info[i].coords, oldBuf);
    var matchSelect := memAll && |info| == 1 && info[i].fspace.dims == file.dims;
    var ops := PlanChunk(info[i], ds.typeSize, matchSelect, GridOf(ds), file, mem, |buf|);
    store.WriteOperate(key, ops, buf);
    assert store.objects == AfterChunk(objs, ds, info[i], ops, buf);
    WriteChunkKeeps(before, objs, ds, file, mem, info[i], ops, buf);
    WriteChunk(before, objs, ds, file, mem, info[i], ops, buf, done);
  }

  lemma NothingWritten(objs: Objects, ds: Dset, file: Space, mem: Space, buf: seq<byte>, infos: seq<ChunkInfo>)
    requires Pieces(infos, ds, file, mem) && BufferFits(mem, ds.typeSize, |buf|)
    ensures Updated(objs, objs, ds, file, mem, buf, Corners(infos[..0])) && OthersKept(objs, objs, ds)
  {
    hide DatasetByte;
    assert Corners(infos[..0]) == {};
  }

  lemma NothingRead(objs: Objects, ds: Dset, file: Space, mem: Space, buf: seq<byte>, infos: seq<ChunkInfo>)
    requires Pieces(infos, ds, file, mem) && BufferFits(mem, ds.typeSize, |buf|)
    ensures ReadSoFar(objs, ds, file, mem, buf, buf, Corners(infos[..0]))
  {
    hide DatasetByte;
    assert Corners(infos[..0]) == {};
  }

  lemma CornersStep(infos: seq<ChunkInfo>, i: nat)
    requires i < |infos|
    ensures Corners(infos[..i + 1]) == Corners(infos[..i]) + {infos[i].coords}
  {
    assert infos[..i + 1] == infos[..i] + [infos[i]];
    assert forall k :: 0 <= k < i ==> infos[..i + 1][k] == infos[..i][k];
    assert infos[..i + 1][i] == infos[i];
  }

  /** H5VL_dtio_dataset_write for one dataset whose memory type equals its file type. */
  method DatasetWrite(store: ObjectStore, ds: Dset, fileArg: SpaceArg, memArg: SpaceArg, buf: seq<byte>)
    returns (r: Status)
    requires ArgsOk(ds, fileArg, memArg, |buf|)
    modifies store
    ensures r == Outcome(ds, fileArg, memArg, |buf|, true)
    ensures r == Done ==> Wrote(old(store.objects), store.objects, ds, fileArg, memArg, buf)
    ensures r == Done ==>
      && |RealFile(ds, fileArg).pts| == |RealMem(ds, fileArg, memArg).pts|
      && RealFile(ds, fileArg).Valid() && RealMem(ds, fileArg, memArg).Valid() && RealFile(ds, fileArg).dims == ds.dims
      && Written(old(store.objects), store.objects, ds, RealFile(ds, fileArg), RealMem(ds, fileArg, memArg), buf)
      && OthersKept(old(store.objects), store.objects, ds)
    ensures r != Done ==> store.objects == old(store.objects)
  {
    RealSpacesValid(ds, fileArg, memArg, |buf|);
    RealCounts(ds, fileArg, memArg);
    if !ds.writable {
      return NoWriteIntent;
    }
    var file, mem := RealFile(ds, fileArg), RealMem(ds, fileArg, memArg);
    if |file.pts| != |mem.pts| {
      return SizeMismatch;
    }
    if |file.pts| == 0 {
      WrittenIsWrote(store.objects, store.objects, ds, fileArg, memArg, buf);
      return Done;
    }
    ShapesIff(ds, fileArg, memArg, |buf|);
    var ok, info, len := PrepareChunks(ds, file, mem, memArg.All?);
    if !ok {
      return ShapeMismatch;
    }
    ghost var before := store.objects;
    WriteChunks(store, ds, file, mem, memArg.All?, info[..len], buf);
    WrittenIsWrote(before, store.objects, ds, fileArg, memArg, buf);
    return Done;
  }

  /** The read loop over the chunks. */
  method ReadChunks(store: ObjectStore, ds: Dset, file: Space, mem: Space, memAll: bool,
                    info: seq<ChunkInfo>, buf: array<byte>)
    requires ds.Valid() && file.Valid() && mem.Valid() && |file.pts| == |mem.pts| && file.dims == ds.dims
    requires Pieces(info, ds, file, mem) && BufferFits(mem, ds.typeSize, buf.Length)
    requires memAll && |info| == 1 && info[0].fspace.dims == file.dims ==> info[0].fspace == info[0].mspace
    modifies buf
    ensures ReadBack(store.objects, ds, file, mem, old(buf[..]), buf[..])
  {
    hide *;
    ghost var was := buf[..];
    var oidBuf: array?<char> := null;
    var i := 0;
    NothingRead(store.objects, ds, file, mem, was, info);
    while i < |info|
      invariant i <= |info|
      invariant oidBuf != null ==> fresh(oidBuf) && oidBuf.Length == 2 + |ds.file| + 16 + |ds.dims| * 16 + 1
      invariant ReadSoFar(store.objects, ds, file, mem, was, buf[..], Corners(info[..i]))
    {
      oidBuf := ReadOneChunk(store, ds, file, mem, memAll, info, i, buf, oidBuf, was, Corners(info[..i]));
      CornersStep(info, i);
      i := i + 1;
    }
    assert info[..i] == info;
    AllRead(store.objects, ds, file, mem, was, buf[..], info);
  }

  method ReadOneChunk(store: ObjectStore, ds: Dset, file: Space, mem: Space, memAll: bool, info: seq<ChunkInfo>, i: nat,
                      buf: array<byte>, oldBuf: array?<char>, ghost was: seq<byte>, ghost done: set<Coord>)
    returns (oidBuf: array<char>)
    requires Pieces(info, ds, file, mem) && BufferFits(mem, ds.typeSize, |was|) && i < |info|
    requires memAll && |info| == 1 && info[0].fspace.dims == file.dims ==> info[0].fspace == info[0].mspace
    requires oldBuf != null ==> oldBuf.Length == 2 + |ds.file| + 16 + |ds.dims| * 16 + 1
    requires ReadSoFar(store.objects, ds, file, mem, was, buf[..], done)
    modifies buf
    modifies if oldBuf == null then {} else {oldBuf}
    ensures oidBuf.Length == 2 + |ds.file| + 16 + |ds.dims| * 16 + 1
    ensures if oldBuf == null then fresh(oidBuf) else oidBuf == oldBuf
    ensures ReadSoFar(store.objects, ds, file, mem, was, buf[..], done + {info[i].coords})
  {
    ghost var cur := buf[..];
    var key;
    key, oidBuf := ChunkKeyString(ds, info[i].coords, oldBuf);
    assert buf[..] == cur;
    var matchSelect := memAll && |info| == 1 && info[i].fspace.dims == file.dims;
    var ops := PlanChunk(info[i], ds.typeSize, matchSelect, GridOf(ds), file, mem, |was|);
    store.ReadOperate(key, ops, buf);
    ReadChunk(store.objects, ds, file, mem, info[i], ops, was, cur, done);
  }

  /** H5VL_dtio_dataset_read for one dataset whose memory type equals its file type. */
  method DatasetRead(store: ObjectStore, ds: Dset, fileArg: SpaceArg, memArg: SpaceArg, buf: array<byte>)
    returns (r: Status)
    requires ArgsOk(ds, fileArg, memArg, buf.Length)
    modifies buf
    ensures r == Outcome(ds, fileArg, memArg, buf.Length, false)
    ensures r == Done ==> DidRead(store.objects, ds, fileArg, memArg, old(buf[..]), buf[..])
    ensures r == Done ==>
      && |RealFile(ds, fileArg).pts| == |RealMem(ds, fileArg, memArg).pts|
      && RealFile(ds, fileArg).Valid() && RealMem(ds, fileArg, memArg).Valid() && RealFile(ds, fileArg).dims == ds.dims
      && ReadBack(store.objects, ds, RealFile(ds, fileArg), RealMem(ds, fileArg, memArg), old(buf[..]), buf[..])
    ensures r != Done ==> buf[..] == old(buf[..])
  {
    RealSpacesValid(ds, fileArg, memArg, buf.Length);
    RealCounts(ds, fileArg, memArg);
    var file, mem := RealFile(ds, fileArg), RealMem(ds, fileArg, memArg);
    if |file.pts| != |mem.pts| {
      return SizeMismatch;
    }
    if |file.pts| == 0 {
      ReadBackIsDidRead(store.objects, ds, fileArg, memArg, buf[..], buf[..]);
      return Done;
    }
    ShapesIff(ds, fileArg, memArg, buf.Length);
    var ok, info, len := PrepareChunks(ds, file, mem, memArg.All?);
    if !ok {
      return ShapeMismatch;
    }
    ghost var was := buf[..];
    ReadChunks(store, ds, file, mem, memArg.All?, info[..len], buf);
    ReadBackIsDidRead(store.objects, ds, fileArg, memArg, was, buf[..]);
    return Done;
  }

  // ----- the four kinds of calls -----

  lemma OffsetIs(q: Coord, dims: seq<nat>, typeSize: nat, b: nat)
    requires InExtent(q, dims)
    ensures BufferOffset(q, dims, typeSize, b) == Linear(q, dims) * typeSize + b
  {
  }

  lemma WroteAt(before: Objects, now: Objects, ds: Dset, file: SpaceArg, mem: SpaceArg, buf: seq<byte>,
                p: Coord, q: Coord, b: nat)
    requires ds.Valid() && Wrote(before, now, ds, file, mem, buf)
    requires Together(ds.dims, file, mem, p, q) && b < ds.typeSize
    ensures var at := Linear(q, MemDims(ds.dims, mem)) * ds.typeSize + b;
      at < |buf| && DatasetByte(now, ds, p, b) == buf[at]
  {
    hide DatasetByte, Linear, BufferOffset, Untouched, Selected;
    OffsetIs(q, MemDims(ds.dims, mem), ds.typeSize, b);
  }

  lemma DidReadAt(objs: Objects, ds: Dset, file: SpaceArg, mem: SpaceArg, was: seq<byte>, now: seq<byte>,
                  p: Coord, q: Coord, b: nat)
    requires ds.Valid() && DidRead(objs, ds, file, mem, was, now)
    requires Together(ds.dims, file, mem, p, q) && b < ds.typeSize
    ensures var at := Linear(q, MemDims(ds.dims, mem)) * ds.typeSize + b;
      at < |now| && now[at] == DatasetByte(objs, ds, p, b)
  {
    hide DatasetByte, Linear, BufferOffset, Untouched, Selected;
    OffsetIs(q, MemDims(ds.dims, mem), ds.typeSize, b);
  }

  /** Writing the whole of a dataset from a buffer: the bytes of each point are at its row-major
      place. */
  lemma WholeWrite(before: Objects, now: Objects, ds: Dset, buf: seq<byte>, p: Coord, b: nat)
    requires ds.Valid() && Wrote(before, now, ds, All, All, buf) && InExtent(p, ds.dims) && b < ds.typeSize
    ensures Linear(p, ds.dims) * ds.typeSize + b < |buf|
    ensures DatasetByte(now, ds, p, b) == buf[Linear(p, ds.dims) * ds.typeSize + b]
  {
    WroteAt(before, now, ds, All, All, buf, p, p, b);
    hide DatasetByte, Linear, Wrote;
  }

  lemma WholeRead(objs: Objects, ds: Dset, was: seq<byte>, now: seq<byte>, p: Coord, b: nat)
    requires ds.Valid() && DidRead(objs, ds, All, All, was, now) && InExtent(p, ds.dims) && b < ds.typeSize
    ensures Linear(p, ds.dims) * ds.typeSize + b < |now|
    ensures now[Linear(p, ds.dims) * ds.typeSize + b] == DatasetByte(objs, ds, p, b)
  {
    DidReadAt(objs, ds, All, All, was, now, p, p, b);
    hide DatasetByte, Linear, DidRead;
  }

  /** Writing a selection from a selection: position by position. Without one for memory, each point
      is at the place in the buffer that it has in the dataset. */
  lemma SelectionWrite(before: Objects, now: Objects, ds: Dset, s: Space, mem: SpaceArg, buf: seq<byte>,
                       k: nat, b: nat)
    requires ArgsOk(ds, Given(s), mem, |buf|) && Wrote(before, now, ds, Given(s), mem, buf)
    requires k < |s.pts| == MemCount(ds.dims, Given(s), mem) && b < ds.typeSize
    ensures var q, dims := if mem.All? then s.pts[k] else mem.space.pts[k], MemDims(ds.dims, mem);
      && InExtent(q, dims) && Linear(q, dims) * ds.typeSize + b < |buf|
      && DatasetByte(now, ds, s.pts[k], b) == buf[Linear(q, dims) * ds.typeSize + b]
  {
    WroteAt(before, now, ds, Given(s), mem, buf, s.pts[k], if mem.All? then s.pts[k] else mem.space.pts[k], b);
    hide DatasetByte, Linear, Wrote;
  }

  /** Writing the whole of a dataset from a selection of memory: the point at row-major place k gets
      the k-th selected element. */
  lemma WholeFromSelection(before: Objects, now: Objects, ds: Dset, m: Space, buf: seq<byte>, p: Coord, b: nat)
    requires ArgsOk(ds, All, Given(m), |buf|) && Wrote(before, now, ds, All, Given(m), buf)
    requires |m.pts| == Size(ds.dims) && InExtent(p, ds.dims) && b < ds.typeSize
    ensures var q := m.pts[Linear(p, ds.dims)];
      && Linear(q, m.dims) * ds.typeSize + b < |buf|
      && DatasetByte(now, ds, p, b) == buf[Linear(q, m.dims) * ds.typeSize + b]
  {
    WroteAt(before, now, ds, All, Given(m), buf, p, m.pts[Linear(p, ds.dims)], b);
    hide DatasetByte, Linear, Wrote;
  }

  /** When a call with H5S_ALL succeeds: always, if memory is H5S_ALL as well; otherwise memory needs
      as many points as the dataset has. */
  lemma WholeOutcome(ds: Dset, file: SpaceArg, mem: SpaceArg, n: nat)
    requires ArgsOk(ds, file, mem, n)
    ensures mem.All? ==> Outcome(ds, file, mem, n, false) == Done
    ensures file.All? && mem.Given? ==>
      (Outcome(ds, file, mem, n, false) == SizeMismatch <==> |mem.space.pts| != Size(ds.dims))
    ensures Outcome(ds, file, mem, n, true) == if ds.writable then Outcome(ds, file, mem, n, false) else NoWriteIntent
  {
    if mem.All? {
      var v := Origin(|ds.dims|);
      assert MovesBy(ds.dims, file, mem, v);
    }
  }
}
