/** Transfers between the elements selected in a chunk and a packed buffer that holds one element
    after the other. */
module PackedIo {
  import opened Codec
  import opened Keys
  import opened Grid
  import opened Runs
  import opened IoPlan
  import opened Dataspace
  import opened ChunkEnum
  import opened Transfer
  import opened FlatArray
  import opened TypeWalk

  // ----- packed buffers -----

  /** The j-th element of a packed buffer. */
  function Element(buf: Bytes, size: nat, j: nat): (e: Bytes)
    ensures |e| == size
  {
    Part(buf, j * size, size)
  }

  lemma ElementByteAt(buf: Bytes, size: nat, j: nat, b: nat)
    requires b < size
    ensures Element(buf, size, j)[b] == At(buf, j * size + b)
  {
    PartAt(buf, j * size, size, b);
    hide Part;
  }

  /** The bytes that n elements take. */
  function Span(n: nat, size: nat): nat {
    n * size
  }

  function Packed(elements: seq<Bytes>): Bytes {
    if elements == [] then [] else Packed(elements[..|elements| - 1]) + elements[|elements| - 1]
  }

  predicate OfSize(elements: seq<Bytes>, size: nat) {
    forall j :: 0 <= j < |elements| ==> |elements[j]| == size
  }

  lemma {:induction false} PackedLength(elements: seq<Bytes>, size: nat)
    requires OfSize(elements, size)
    ensures |Packed(elements)| == |elements| * size
  {
    if elements != [] {
      PackedLength(elements[..|elements| - 1], size);
      ScaleSucc(|elements| - 1, size);
    }
  }

  lemma SlicePrefix(a: Bytes, b: Bytes, buf: Bytes)
    requires a + b <= buf
    ensures a <= buf && Part(buf, |a|, |b|) == b
  {
    var part := Part(buf, |a|, |b|);
    forall i | 0 <= i < |b| ensures part[i] == b[i] {
      PartAt(buf, |a|, |b|, i);
      assert buf[|a| + i] == (a + b)[|a| + i];
    }
    assert buf[..|a|] == (a + b)[..|a|] == a;
  }

  /** A buffer that begins with packed elements has them in their places. */
  lemma {:induction false} PackedElement(elements: seq<Bytes>, size: nat, buf: Bytes, j: nat)
    requires OfSize(elements, size) && Packed(elements) <= buf && j < |elements|
    ensures Element(buf, size, j) == elements[j]
  {
    var n: nat := |elements| - 1;
    PackedLength(elements[..n], size);
    SlicePrefix(Packed(elements[..n]), elements[n], buf);
    if j < n {
      PackedElement(elements[..n], size, buf, j);
    }
  }

  function PackedStarts(n: nat, size: nat): (starts: seq<nat>)
    ensures |starts| == n
  {
    seq(n, j requires 0 <= j => j * size)
  }

  lemma PackedSpaced(n: nat, size: nat)
    ensures Spaced(PackedStarts(n, size), size)
  {
    forall i, j | 0 <= i < j < n ensures PackedStarts(n, size)[i] + size <= PackedStarts(n, size)[j] {
      ScaleOrder(i, j, size);
    }
  }

  lemma RangeJoin(a: nat, b: nat)
    ensures Range(0, a) + Range(a, b) == Range(0, a + b)
  {
  }

  lemma {:induction false} PackedBytes(n: nat, size: nat)
    ensures ElementBytes(PackedStarts(n, size), size) == Range(0, n * size)
  {
    if n > 0 {
      var m: nat := n - 1;
      PackedBytes(m, size);
      assert PackedStarts(n, size)[..m] == PackedStarts(m, size);
      ScaleSucc(m, size);
      RangeJoin(m * size, size);
    }
  }

  /** A packed buffer is one run. */
  lemma PackedRun(n: nat, size: nat)
    requires n > 0 && size > 0
    ensures n * size > 0 && HandedOut(Selection([Run(0, n * size)], [n]), PackedStarts(n, size), size)
  {
    ScaleOrder(0, n, size);
    PackedBytes(n, size);
    var runs := [Run(0, n * size)];
    assert runs[1..] == [];
    assert Flatten(runs) == Range(0, n * size) + [];
    assert [n][1..] == [];
  }

  /** A plan between a packed buffer and the elements selected in a chunk. */
  ghost predicate PackedPlan(ops: seq<Op>, info: ChunkInfo, size: nat) {
    var n := |info.fspace.pts|;
    && info.fspace.Valid()
    && PairsElements(OpPairs(ops), PackedStarts(n, size), Starts(info.fspace, size), size)
    && Fits(ops, n * size)
  }

  /** The contiguous planner makes such a plan from whatever the iterator hands out. */
  lemma ContigPlan(f: Selection, info: ChunkInfo, size: nat)
    requires size > 0 && info.fspace.Valid() && info.fspace.pts != []
    requires HandedOut(f, Starts(info.fspace, size), size)
    ensures PackedPlan(ContigOps(0, f.runs), info, size)
  {
    var n, fs := |info.fspace.pts|, Starts(info.fspace, size);
    var m, ms := Selection([Run(0, n * size)], [n]), PackedStarts(n, size);
    PackedRun(n, size);
    PackedSpaced(n, size);
    StartsSpaced(info.fspace, size);
    MergePairsElements(m, f, ms, fs, size);
    ContigIsMerge(0, f.runs);
    assert Total(f.runs) == n * size;
    var ops := Merge(m.runs, f.runs);
    MergeCount(m.runs, f.runs);
    forall i | 0 <= i < |OpPairs(ops)| ensures OpPairs(ops)[i].0 < n * size {
      assert Covered(ms, size, OpPairs(ops)[i].0);
      var k :| 0 <= k < |ms| && ms[k] <= OpPairs(ops)[i].0 < ms[k] + size;
      ScaleOrder(k, n, size);
    }
    PairsFit(ops, n * size);
  }

  // ----- one chunk on the flat array -----

  /** The bytes stored at a point. */
  ghost function StoredElement(objs: Objects, ds: Dset, p: Coord): (e: Bytes)
    requires ds.Valid() && InExtent(p, ds.dims)
    ensures |e| == ds.typeSize
  {
    seq<byte>(ds.typeSize, b requires 0 <= b => DatasetByte(objs, ds, p, b))
  }

  lemma StoredByte(objs: Objects, ds: Dset, p: Coord, b: nat)
    requires ds.Valid() && InExtent(p, ds.dims) && b < ds.typeSize
    ensures StoredElement(objs, ds, p)[b] == DatasetByte(objs, ds, p, b)
  {
  }

  /** A chunk's entry, a plan for it, and a buffer for its elements. */
  ghost predicate Planned(ds: Dset, file: Space, mem: Space, info: ChunkInfo, ops: seq<Op>, n: nat) {
    && ds.Valid() && file.Valid() && mem.Valid() && |file.pts| == |mem.pts| && file.dims == ds.dims
    && Piece(info, GridOf(ds), file, mem)
    && PackedPlan(ops, info, ds.typeSize)
    && Span(|info.fspace.pts|, ds.typeSize) <= n
  }

  lemma PlannedFits(ds: Dset, file: Space, mem: Space, info: ChunkInfo, ops: seq<Op>, n: nat)
    requires Planned(ds, file, mem, info, ops, n)
    ensures Fits(ops, n)
  {
  }

  lemma PackedByte(n: nat, size: nat, j: nat, b: nat)
    requires j < n && b < size
    ensures Byte(PackedStarts(n, size), j, b) == j * size + b < n * size
  {
    ScaleOrder(j, n, size);
  }

  /** Where the j-th element of a chunk's selection lies in the chunk's object. */
  lemma EntryPlace(ds: Dset, file: Space, mem: Space, info: ChunkInfo, j: nat, k: nat, b: nat)
    requires ds.Valid() && file.Valid() && file.dims == ds.dims
    requires info.fspace.Valid() && info.fspace.dims == GridOf(ds)
    requires SamePoint(info, GridOf(ds), file, mem, j, k)
    ensures InExtent(file.pts[k], ds.dims)
    ensures Byte(Starts(info.fspace, ds.typeSize), j, b) == Place(ds, file.pts[k], b)
  {
    CornerLocOk(ds, file.pts[k]);
  }

  lemma PlanWrites(obj: Content, info: ChunkInfo, ops: seq<Op>, size: nat, buf: Bytes, j: nat, b: nat)
    requires PackedPlan(ops, info, size) && Fits(ops, |buf|) && j < |info.fspace.pts| && b < size
    ensures ByteAt(WriteOps(obj, ops, buf), Byte(Starts(info.fspace, size), j, b)) == Element(buf, size, j)[b]
  {
    var n := |info.fspace.pts|;
    var ms, fs := PackedStarts(n, size), Starts(info.fspace, size);
    PackedByte(n, size, j, b);
    ElementByteAt(buf, size, j, b);
    hide WriteOps, PairsElements, Fits, Starts, PackedStarts, Element, Part, Space.Valid;
    WriteElement(obj, ops, buf, ms, fs, size, j, b);
  }

  lemma PlanReads(obj: Content, info: ChunkInfo, ops: seq<Op>, size: nat, buf: Bytes, j: nat, b: nat)
    requires PackedPlan(ops, info, size) && |info.fspace.pts| * size <= |buf| && j < |info.fspace.pts| && b < size
    ensures Element(ReadOps(obj, ops, buf), size, j)[b] == ByteAt(obj, Byte(Starts(info.fspace, size), j, b))
  {
    var n := |info.fspace.pts|;
    var ms, fs := PackedStarts(n, size), Starts(info.fspace, size);
    PackedByte(n, size, j, b);
    ElementByteAt(ReadOps(obj, ops, buf), size, j, b);
    hide ReadOps, PairsElements, Fits, Starts, PackedStarts, Element, Part, Space.Valid;
    ReadElement(obj, ops, buf, ms, fs, size, j, b);
  }

  /** Byte b of the k-th point after the chunk's plan wrote out the packed buffer. */
  lemma StoredFrom(objs: Objects, ds: Dset, file: Space, mem: Space, info: ChunkInfo, ops: seq<Op>, buf: Bytes,
                   j: nat, k: nat, b: nat)
    requires Planned(ds, file, mem, info, ops, |buf|) && SamePoint(info, GridOf(ds), file, mem, j, k) && b < ds.typeSize
    ensures Fits(ops, |buf|)
    ensures DatasetByte(AfterChunk(objs, ds, info, ops, buf), ds, file.pts[k], b) == Element(buf, ds.typeSize, j)[b]
  {
    PlannedFits(ds, file, mem, info, ops, |buf|);
    EntryPlace(ds, file, mem, info, j, k, b);
    PlanWrites(ObjAt(objs, KeyAt(ds, info.coords)), info, ops, ds.typeSize, buf, j, b);
    hide WriteOps, PackedPlan, Piece, Fits, Place, Starts, Byte, Element, ByteAt, Space.Valid;
  }

  /** No other point changes. */
  lemma StoredElsewhere(objs: Objects, ds: Dset, file: Space, mem: Space, info: ChunkInfo, ops: seq<Op>, buf: Bytes,
                        p: Coord, b: nat)
    requires Planned(ds, file, mem, info, ops, |buf|) && InExtent(p, ds.dims) && b < ds.typeSize
    requires ChunkOf(p, GridOf(ds)) != info.coords || p !in file.pts
    ensures Fits(ops, |buf|)
    ensures DatasetByte(AfterChunk(objs, ds, info, ops, buf), ds, p, b) == DatasetByte(objs, ds, p, b)
  {
    PlannedFits(ds, file, mem, info, ops, |buf|);
    hide WriteOps, PairsElements;
    var size, key := ds.typeSize, KeyAt(ds, info.coords);
    CornerLocOk(ds, p);
    if ChunkOf(p, GridOf(ds)) != info.coords {
      OtherChunkKey(ds, ChunkOf(p, GridOf(ds)), info.coords);
    } else {
      var ms, fs := PackedStarts(|info.fspace.pts|, size), Starts(info.fspace, size);
      NotWritten(info, ds, file, mem, p, b);
      WriteOutside(ObjAt(objs, key), ops, buf, ms, fs, size, Place(ds, p, b));
    }
  }

  lemma ReadByteInto(objs: Objects, ds: Dset, file: Space, mem: Space, info: ChunkInfo, ops: seq<Op>, buf: Bytes,
                     j: nat, k: nat, b: nat)
    requires Planned(ds, file, mem, info, ops, |buf|) && SamePoint(info, GridOf(ds), file, mem, j, k) && b < ds.typeSize
    ensures InExtent(file.pts[k], ds.dims)
    ensures Element(ReadOps(ObjAt(objs, KeyAt(ds, info.coords)), ops, buf), ds.typeSize, j)[b]
         == DatasetByte(objs, ds, file.pts[k], b)
  {
    EntryPlace(ds, file, mem, info, j, k, b);
    PlanReads(ObjAt(objs, KeyAt(ds, info.coords)), info, ops, ds.typeSize, buf, j, b);
    hide ReadOps, PackedPlan, Piece, Fits, Place, Starts, Byte, Element, ByteAt, Space.Valid;
  }

  /** Element j of a packed buffer after the chunk's plan read into it. */
  lemma ReadInto(objs: Objects, ds: Dset, file: Space, mem: Space, info: ChunkInfo, ops: seq<Op>, buf: Bytes,
                 j: nat, k: nat)
    requires Planned(ds, file, mem, info, ops, |buf|) && SamePoint(info, GridOf(ds), file, mem, j, k)
    ensures Element(ReadOps(ObjAt(objs, KeyAt(ds, info.coords)), ops, buf), ds.typeSize, j)
         == StoredElement(objs, ds, file.pts[k])
  {
    var size, obj := ds.typeSize, ObjAt(objs, KeyAt(ds, info.coords));
    var now, p := ReadOps(obj, ops, buf), file.pts[k];
    var read, stored := Element(now, size, j), StoredElement(objs, ds, p);
    forall b: nat | b < size ensures read[b] == stored[b] {
      ReadByteInto(objs, ds, file, mem, info, ops, buf, j, k, b);
      StoredByte(objs, ds, p, b);
      hide *;
    }
    hide *;
  }

  lemma StoredElementFrom(objs: Objects, ds: Dset, file: Space, mem: Space, info: ChunkInfo, ops: seq<Op>, buf: Bytes,
                          j: nat, k: nat)
    requires Planned(ds, file, mem, info, ops, |buf|) && SamePoint(info, GridOf(ds), file, mem, j, k)
    ensures Fits(ops, |buf|)
    ensures StoredElement(AfterChunk(objs, ds, info, ops, buf), ds, file.pts[k]) == Element(buf, ds.typeSize, j)
  {
    PlannedFits(ds, file, mem, info, ops, |buf|);
    var now, p := AfterChunk(objs, ds, info, ops, buf), file.pts[k];
    var stored, element := StoredElement(now, ds, p), Element(buf, ds.typeSize, j);
    forall b: nat | b < ds.typeSize ensures stored[b] == element[b] {
      StoredFrom(objs, ds, file, mem, info, ops, buf, j, k, b);
      StoredByte(now, ds, p, b);
      hide *;
    }
    hide *;
  }

  lemma StoredElementElsewhere(objs: Objects, ds: Dset, file: Space, mem: Space, info: ChunkInfo, ops: seq<Op>,
                               buf: Bytes, p: Coord)
    requires Planned(ds, file, mem, info, ops, |buf|) && InExtent(p, ds.dims)
    requires ChunkOf(p, GridOf(ds)) != info.coords
    ensures Fits(ops, |buf|)
    ensures StoredElement(AfterChunk(objs, ds, info, ops, buf), ds, p) == StoredElement(objs, ds, p)
  {
    PlannedFits(ds, file, mem, info, ops, |buf|);
    var now := AfterChunk(objs, ds, info, ops, buf);
    var stored, kept := StoredElement(now, ds, p), StoredElement(objs, ds, p);
    forall b: nat | b < ds.typeSize ensures stored[b] == kept[b] {
      StoredElsewhere(objs, ds, file, mem, info, ops, buf, p, b);
      StoredByte(now, ds, p, b);
      StoredByte(objs, ds, p, b);
      hide *;
    }
    hide *;
  }
}
