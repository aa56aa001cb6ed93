/** Writing a dataset from memory of another type: the elements selected in each chunk are gathered
    into a packed buffer, converted there over a background, and written out of it. */
module TypedWrite {
  import opened Codec
  import opened Keys
  import opened Grid
  import opened Runs
  import opened IoPlan
  import opened Dataspace
  import opened ChunkEnum
  import opened Transfer
  import opened FlatArray
  import opened DatasetIo
  import opened PackedIo
  import opened TypeWalk

  // ----- conversion -----

  /** The types of a transfer. Whether they are equal is the library's answer, which looks at more
      than their shapes. */
  datatype Conversion = Conversion(atoms: Atoms, memType: Type, fileType: Type, equal: bool) {
    ghost predicate Valid() {
      WellFormed(memType) && WellFormed(fileType) && (equal ==> memType == fileType)
    }

    /** One element, converted over a background. */
    function Apply(s: Bytes, bkg: Bytes): (v: Bytes)
      ensures |v| == SizeOf(fileType)
    {
      seq<byte>(SizeOf(fileType), o requires 0 <= o => Converted(atoms, memType, fileType, s, bkg, o))
    }

    /** Does a write fill the background with the stored bytes? It asks whether a conversion from
        the file type to the memory type would need them. */
    ghost predicate Fills() {
      !Full(fileType, memType)
    }

    /** What an element is converted over: the bytes stored before if they were read, else what the
        background buffer held. */
    ghost function Background(stored: Bytes, held: Bytes): Bytes {
      if Fills() then stored else held
    }
  }

  ghost function MemElement(mem: Space, size: nat, buf: Bytes, k: nat): (e: Bytes)
    requires mem.Valid() && BufferFits(mem, size, |buf|) && k < |mem.pts|
    ensures |e| == size
  {
    seq<byte>(size, b requires 0 <= b < size => MemValue(mem, size, buf, k, b))
  }

  lemma MemElementIsPart(mem: Space, size: nat, buf: Bytes, k: nat)
    requires mem.Valid() && BufferFits(mem, size, |buf|) && k < |mem.pts|
    ensures Part(buf, Starts(mem, size)[k], size) == MemElement(mem, size, buf, k)
  {
    ElementFits(mem, size, |buf|, k);
    var at := Starts(mem, size)[k];
    var part, element := Part(buf, at, size), MemElement(mem, size, buf, k);
    forall b: nat | b < size ensures part[b] == element[b] {
      PartAt(buf, at, size, b);
    }
  }

  /** A write's arguments: a buffer for the memory extent, of elements of the memory type. */
  ghost predicate Typed(ds: Dset, cv: Conversion, file: Space, mem: Space, n: nat) {
    && ds.Valid() && cv.Valid() && SizeOf(cv.fileType) == ds.typeSize
    && file.Valid() && mem.Valid() && |file.pts| == |mem.pts| && file.dims == ds.dims
    && BufferFits(mem, SizeOf(cv.memType), n)
  }

  /** What the k-th selected point is to hold: its memory element, converted over its background. */
  ghost function NewElement(before: Objects, ds: Dset, cv: Conversion, file: Space, mem: Space, buf: Bytes, k: nat,
                            held: Bytes): (e: Bytes)
    requires Typed(ds, cv, file, mem, |buf|) && k < |file.pts|
    ensures |e| == ds.typeSize
  {
    cv.Apply(MemElement(mem, SizeOf(cv.memType), buf, k),
             cv.Background(StoredElement(before, ds, file.pts[k]), held))
  }

  /** The state of the flat array once the chunks in `done` are written. */
  ghost predicate ConvertedSoFar(before: Objects, now: Objects, ds: Dset, cv: Conversion, file: Space, mem: Space,
                                 buf: Bytes, done: set<Coord>, held: seq<Bytes>)
    requires Typed(ds, cv, file, mem, |buf|)
  {
    && |held| == |file.pts|
    && (forall k: nat :: k < |file.pts| ==>
          StoredElement(now, ds, file.pts[k]) ==
            if ChunkOf(file.pts[k], GridOf(ds)) in done then NewElement(before, ds, cv, file, mem, buf, k, held[k])
            else StoredElement(before, ds, file.pts[k]))
    && (forall p, b: nat :: InExtent(p, ds.dims) && b < ds.typeSize && p !in file.pts ==>
          DatasetByte(now, ds, p, b) == DatasetByte(before, ds, p, b))
  }

  /** The meaning of a converting write on the flat array. */
  ghost predicate ConvertedTo(before: Objects, now: Objects, ds: Dset, cv: Conversion, file: Space, mem: Space,
                              buf: Bytes, held: seq<Bytes>)
    requires Typed(ds, cv, file, mem, |buf|)
  {
    && |held| == |file.pts|
    && (forall k: nat :: k < |file.pts| ==>
          StoredElement(now, ds, file.pts[k]) == NewElement(before, ds, cv, file, mem, buf, k, held[k]))
    && (forall p, b: nat :: InExtent(p, ds.dims) && b < ds.typeSize && p !in file.pts ==>
          DatasetByte(now, ds, p, b) == DatasetByte(before, ds, p, b))
  }

  ghost function EntryOf(info: ChunkInfo, grid: seq<nat>, file: Space, mem: Space, k: nat): (j: nat)
    requires ChunkShape(grid) && HasEntry(info, grid, file, mem, k)
    ensures SamePoint(info, grid, file, mem, j, k)
  {
    var j: nat :| SamePoint(info, grid, file, mem, j, k);
    j
  }

  /** The backgrounds of a chunk's points, taken from its background buffer. */
  ghost function HeldBy(ds: Dset, file: Space, mem: Space, info: ChunkInfo, bkg: Bytes, held: seq<Bytes>)
    : (r: seq<Bytes>)
    requires ds.Valid() && file.Valid() && file.dims == ds.dims && |held| == |file.pts|
    requires Piece(info, GridOf(ds), file, mem)
    ensures |r| == |held|
  {
    seq(|held|, k requires 0 <= k < |held| =>
      if ChunkOf(file.pts[k], GridOf(ds)) == info.coords then
        Element(bkg, ds.typeSize, EntryOf(info, GridOf(ds), file, mem, k))
      else held[k])
  }

  /** The converted elements of a chunk in the packed buffer, over the elements of a background. */
  ghost predicate ChunkConverted(cv: Conversion, info: ChunkInfo, buf: Bytes, bkg: Bytes, tconv: Bytes)
    requires info.mspace.Valid()
  {
    var from, to := SizeOf(cv.memType), SizeOf(cv.fileType);
    forall j :: 0 <= j < |info.mspace.pts| ==>
      Element(tconv, to, j) == cv.Apply(Part(buf, Starts(info.mspace, from)[j], from), Element(bkg, to, j))
  }

  /** The background holds the stored elements of a chunk. */
  ghost predicate Filled(objs: Objects, ds: Dset, file: Space, mem: Space, info: ChunkInfo, bkg: Bytes)
    requires ds.Valid() && file.Valid() && file.dims == ds.dims
  {
    forall j: nat, k: nat :: SamePoint(info, GridOf(ds), file, mem, j, k) ==>
      Element(bkg, ds.typeSize, j) == StoredElement(objs, ds, file.pts[k])
  }

  lemma ChunkPoint(before: Objects, objs: Objects, ds: Dset, cv: Conversion, file: Space, mem: Space, info: ChunkInfo,
                   ops: seq<Op>, buf: Bytes, tconv: Bytes, bkg: Bytes, done: set<Coord>, held: seq<Bytes>, k: nat)
    requires Typed(ds, cv, file, mem, |buf|) && Planned(ds, file, mem, info, ops, |tconv|)
    requires ConvertedSoFar(before, objs, ds, cv, file, mem, buf, done, held) && info.coords !in done
    requires ChunkConverted(cv, info, buf, bkg, tconv)
    requires cv.Fills() ==> Filled(objs, ds, file, mem, info, bkg)
    requires k < |file.pts| && ChunkOf(file.pts[k], GridOf(ds)) == info.coords
    ensures Fits(ops, |tconv|)
    ensures StoredElement(AfterChunk(objs, ds, info, ops, tconv), ds, file.pts[k])
         == NewElement(before, ds, cv, file, mem, buf, k, HeldBy(ds, file, mem, info, bkg, held)[k])
  {
    var grid, from := GridOf(ds), SizeOf(cv.memType);
    assert HasEntry(info, grid, file, mem, k);
    var j := EntryOf(info, grid, file, mem, k);
    StoredElementFrom(objs, ds, file, mem, info, ops, tconv, j, k);
    assert Starts(info.mspace, from)[j] == Starts(mem, from)[k];
    MemElementIsPart(mem, from, buf, k);
    hide StoredElement, AfterChunk, Element, Part, Starts, Conversion.Apply, Conversion.Fills, PackedPlan;
  }

  lemma ConvertedElsewhere(before: Objects, objs: Objects, ds: Dset, file: Space, mem: Space, info: ChunkInfo,
                           ops: seq<Op>, tconv: Bytes)
    requires Planned(ds, file, mem, info, ops, |tconv|)
    requires forall p, b: nat :: InExtent(p, ds.dims) && b < ds.typeSize && p !in file.pts ==>
      DatasetByte(objs, ds, p, b) == DatasetByte(before, ds, p, b)
    ensures Fits(ops, |tconv|)
    ensures var now := AfterChunk(objs, ds, info, ops, tconv);
      forall p, b: nat :: InExtent(p, ds.dims) && b < ds.typeSize && p !in file.pts ==>
        DatasetByte(now, ds, p, b) == DatasetByte(before, ds, p, b)
  {
    PlannedFits(ds, file, mem, info, ops, |tconv|);
    var now := AfterChunk(objs, ds, info, ops, tconv);
    forall p, b: nat | InExtent(p, ds.dims) && b < ds.typeSize && p !in file.pts
      ensures DatasetByte(now, ds, p, b) == DatasetByte(before, ds, p, b)
    {
      StoredElsewhere(objs, ds, file, mem, info, ops, tconv, p, b);
    }
    hide AfterChunk, DatasetByte, Planned;
  }

  lemma ConvertedPoint(before: Objects, objs: Objects, ds: Dset, cv: Conversion, file: Space, mem: Space,
                       info: ChunkInfo, ops: seq<Op>, buf: Bytes, tconv: Bytes, bkg: Bytes, done: set<Coord>,
                       held: seq<Bytes>, k: nat)
    requires Typed(ds, cv, file, mem, |buf|) && Planned(ds, file, mem, info, ops, |tconv|)
    requires ConvertedSoFar(before, objs, ds, cv, file, mem, buf, done, held) && info.coords !in done
    requires ChunkConverted(cv, info, buf, bkg, tconv)
    requires cv.Fills() ==> Filled(objs, ds, file, mem, info, bkg)
    requires k < |file.pts|
    ensures Fits(ops, |tconv|)
    ensures StoredElement(AfterChunk(objs, ds, info, ops, tconv), ds, file.pts[k]) ==
      if ChunkOf(file.pts[k], GridOf(ds)) in done + {info.coords} then
        NewElement(before, ds, cv, file, mem, buf, k, HeldBy(ds, file, mem, info, bkg, held)[k])
      else StoredElement(before, ds, file.pts[k])
  {
    if ChunkOf(file.pts[k], GridOf(ds)) == info.coords {
      ChunkPoint(before, objs, ds, cv, file, mem, info, ops, buf, tconv, bkg, done, held, k);
    } else {
      StoredElementElsewhere(objs, ds, file, mem, info, ops, tconv, file.pts[k]);
    }
    hide StoredElement, AfterChunk, NewElement, DatasetByte, ChunkConverted, Filled, PackedPlan, Piece;
  }

  /** Writing one chunk's converted elements. */
  lemma ConvertedChunk(before: Objects, objs: Objects, ds: Dset, cv: Conversion, file: Space, mem: Space,
                       info: ChunkInfo, ops: seq<Op>, buf: Bytes, tconv: Bytes, bkg: Bytes, done: set<Coord>,
                       held: seq<Bytes>)
    requires Typed(ds, cv, file, mem, |buf|) && Planned(ds, file, mem, info, ops, |tconv|)
    requires ConvertedSoFar(before, objs, ds, cv, file, mem, buf, done, held) && info.coords !in done
    requires ChunkConverted(cv, info, buf, bkg, tconv)
    requires cv.Fills() ==> Filled(objs, ds, file, mem, info, bkg)
    ensures Fits(ops, |tconv|)
    ensures ConvertedSoFar(before, AfterChunk(objs, ds, info, ops, tconv), ds, cv, file, mem, buf,
                           done + {info.coords}, HeldBy(ds, file, mem, info, bkg, held))
  {
    PlannedFits(ds, file, mem, info, ops, |tconv|);
    forall k: nat | k < |file.pts|
      ensures StoredElement(AfterChunk(objs, ds, info, ops, tconv), ds, file.pts[k]) ==
        if ChunkOf(file.pts[k], GridOf(ds)) in done + {info.coords} then
          NewElement(before, ds, cv, file, mem, buf, k, HeldBy(ds, file, mem, info, bkg, held)[k])
        else StoredElement(before, ds, file.pts[k])
    {
      ConvertedPoint(before, objs, ds, cv, file, mem, info, ops, buf, tconv, bkg, done, held, k);
    }
    ConvertedElsewhere(before, objs, ds, file, mem, info, ops, tconv);
    hide StoredElement, AfterChunk, NewElement, DatasetByte, ChunkConverted, Filled, Planned, Piece, HeldBy, PackedPlan;
    hide Conversion.Fills, Space.Valid;
  }

  lemma ConvertedKeepsOthers(before: Objects, objs: Objects, ds: Dset, info: ChunkInfo, ops: seq<Op>, tconv: Bytes)
    requires LocOk(info.coords) && Fits(ops, |tconv|) && OthersKept(before, objs, ds)
    ensures OthersKept(before, AfterChunk(objs, ds, info, ops, tconv), ds)
  {
    assert OwnKey(ds, KeyAt(ds, info.coords));
  }

  // ----- the buffers -----

  method Fill(a: array<byte>, bytes: Bytes)
    requires |bytes| <= a.Length
    modifies a
    ensures bytes <= a[..]
  {
    forall i | 0 <= i < |bytes| {
      a[i] := bytes[i];
    }
    assert a[..][..|bytes|] == bytes;
  }

  /** H5Dgather: the selected memory elements, packed. */
  method Gather(starts: seq<nat>, size: nat, buf: Bytes, tconv: array<byte>)
    requires Span(|starts|, size) <= tconv.Length
    modifies tconv
    ensures forall j :: 0 <= j < |starts| ==> Element(tconv[..], size, j) == Part(buf, starts[j], size)
  {
    var elements := seq(|starts|, j requires 0 <= j < |starts| => Part(buf, starts[j], size));
    PackedLength(elements, size);
    Fill(tconv, Packed(elements));
    forall j: nat | j < |starts| ensures Element(tconv[..], size, j) == Part(buf, starts[j], size) {
      PackedElement(elements, size, tconv[..], j);
    }
  }

  function BytesOf(a: array?<byte>): Bytes
    reads if a == null then {} else {a}
  {
    if a == null then [] else a[..]
  }

  /** H5Tconvert: n elements in place. The background buffer serves as scratch space. */
  method Convert(cv: Conversion, n: nat, tconv: array<byte>, bkg: array?<byte>)
    requires Span(n, SizeOf(cv.memType)) <= tconv.Length && Span(n, SizeOf(cv.fileType)) <= tconv.Length
    requires bkg != null ==> bkg != tconv && Span(n, SizeOf(cv.fileType)) <= bkg.Length
    modifies tconv, if bkg == null then {} else {bkg}
    ensures var from, to := SizeOf(cv.memType), SizeOf(cv.fileType);
      forall j :: 0 <= j < n ==>
        Element(tconv[..], to, j) == cv.Apply(Element(old(tconv[..]), from, j), Element(old(BytesOf(bkg)), to, j))
  {
    var from, to := SizeOf(cv.memType), SizeOf(cv.fileType);
    var s, b := tconv[..], BytesOf(bkg);
    var elements := seq(n, j requires 0 <= j < n => cv.Apply(Element(s, from, j), Element(b, to, j)));
    hide Conversion.Apply, Element;
    PackedLength(elements, to);
    if bkg != null {
      Fill(bkg, Packed(elements));
    }
    Fill(tconv, Packed(elements));
    forall j: nat | j < n ensures Element(tconv[..], to, j) == elements[j] {
      PackedElement(elements, to, tconv[..], j);
    }
  }

  // ----- the chunk loop -----

  /** The stored elements of a chunk, read into the background buffer. */
  method ReadBackground(store: ObjectStore, ds: Dset, key: string, ops: seq<Op>, bkg: array<byte>, ghost file: Space,
                        ghost mem: Space, ghost info: ChunkInfo)
    requires Planned(ds, file, mem, info, ops, bkg.Length) && key == KeyAt(ds, info.coords)
    modifies bkg
    ensures Filled(store.objects, ds, file, mem, info, bkg[..])
  {
    ghost var was := bkg[..];
    store.ReadOperate(key, ops, bkg);
    forall j: nat, k: nat | SamePoint(info, GridOf(ds), file, mem, j, k)
      ensures Element(bkg[..], ds.typeSize, j) == StoredElement(store.objects, ds, file.pts[k])
    {
      ReadInto(store.objects, ds, file, mem, info, ops, was, j, k);
    }
  }

  /** The elements of a chunk, gathered and converted in the packed buffer. */
  method GatherAndConvert(cv: Conversion, info: ChunkInfo, buf: Bytes, tconv: array<byte>, bkg: array?<byte>)
    requires info.mspace.Valid()
    requires Span(|info.mspace.pts|, SizeOf(cv.memType)) <= tconv.Length
    requires Span(|info.mspace.pts|, SizeOf(cv.fileType)) <= tconv.Length
    requires bkg != null ==> bkg != tconv && Span(|info.mspace.pts|, SizeOf(cv.fileType)) <= bkg.Length
    modifies tconv, if bkg == null then {} else {bkg}
    ensures ChunkConverted(cv, info, buf, old(BytesOf(bkg)), tconv[..])
  {
    var from := SizeOf(cv.memType);
    Gather(Starts(info.mspace, from), from, buf, tconv);
    Convert(cv, |info.mspace.pts|, tconv, bkg);
    hide Conversion.Apply, Element, Part, Starts, SizeOf;
  }

  method PlanConverted(info: ChunkInfo, size: nat) returns (ops: seq<Op>)
    requires size > 0 && info.fspace.Valid() && |info.fspace.pts| == |info.mspace.pts| > 0
    ensures PackedPlan(ops, info, size)
  {
    var f := Iterate(Starts(info.fspace, size), size);
    ops := BuildIoOpContig(f, |info.mspace.pts|);
    ContigPlan(f, info, size);
  }

  /** Writes the packed buffer of a chunk out. */
  method StoreConverted(store: ObjectStore, ds: Dset, cv: Conversion, ghost file: Space, ghost mem: Space,
                        ghost info: ChunkInfo, key: string, ops: seq<Op>, ghost buf: Bytes, tconv: Bytes,
                        ghost bkg: Bytes, ghost before: Objects, ghost done: set<Coord>, ghost held: seq<Bytes>)
    requires Typed(ds, cv, file, mem, |buf|) && Planned(ds, file, mem, info, ops, |tconv|)
    requires key == KeyAt(ds, info.coords) && OthersKept(before, store.objects, ds)
    requires ConvertedSoFar(before, store.objects, ds, cv, file, mem, buf, done, held) && info.coords !in done
    requires ChunkConverted(cv, info, buf, bkg, tconv)
    requires cv.Fills() ==> Filled(store.objects, ds, file, mem, info, bkg)
    modifies store
    ensures OthersKept(before, store.objects, ds)
    ensures ConvertedSoFar(before, store.objects, ds, cv, file, mem, buf, done + {info.coords},
                           HeldBy(ds, file, mem, info, bkg, held))
  {
    ghost var objs := store.objects;
    PlannedFits(ds, file, mem, info, ops, |tconv|);
    store.WriteOperate(key, ops, tconv);
    assert store.objects == AfterChunk(objs, ds, info, ops, tconv);
    ConvertedKeepsOthers(before, objs, ds, info, ops, tconv);
    ConvertedChunk(before, objs, ds, cv, file, mem, info, ops, buf, tconv, bkg, done, held);
    hide *;
  }

  /** One round of the loop over the chunks, when types differ. */
  method WriteConvertedChunk(store: ObjectStore, ds: Dset, cv: Conversion, file: Space, mem: Space, info: ChunkInfo,
                             buf: Bytes, fill: bool, tconv: array<byte>, bkg: array?<byte>, oldBuf: array?<char>,
                             ghost before: Objects, ghost done: set<Coord>, ghost held: seq<Bytes>)
    returns (oidBuf: array<char>, ghost held': seq<Bytes>)
    requires Typed(ds, cv, file, mem, |buf|) && Piece(info, GridOf(ds), file, mem)
    requires (fill <==> cv.Fills()) && (fill ==> bkg != null)
    requires Span(|info.fspace.pts|, SizeOf(cv.memType)) <= tconv.Length
    requires Span(|info.fspace.pts|, ds.typeSize) <= tconv.Length
    requires bkg != null ==> bkg != tconv && Span(|info.fspace.pts|, ds.typeSize) <= bkg.Length
    requires oldBuf != null ==> oldBuf.Length == 2 + |ds.file| + 16 + |ds.dims| * 16 + 1
    requires OthersKept(before, store.objects, ds)
    requires ConvertedSoFar(before, store.objects, ds, cv, file, mem, buf, done, held) && info.coords !in done
    modifies store, tconv
    modifies if bkg == null then {} else {bkg}
    modifies if oldBuf == null then {} else {oldBuf}
    ensures oidBuf.Length == 2 + |ds.file| + 16 + |ds.dims| * 16 + 1
    ensures if oldBuf == null then fresh(oidBuf) else oidBuf == oldBuf
    ensures OthersKept(before, store.objects, ds)
    ensures ConvertedSoFar(before, store.objects, ds, cv, file, mem, buf, done + {info.coords}, held')
  {
    var key;
    key, oidBuf := ChunkKeyString(ds, info.coords, oldBuf);
    var ops := PlanConverted(info, ds.typeSize);
    hide PackedPlan, DatasetByte, WriteOps, ConvertedSoFar, ChunkConverted, Filled, OthersKept, HeldBy;
    hide Conversion.Fills;
    if fill {
      ReadBackground(store, ds, key, ops, bkg, file, mem, info);
    }
    ghost var given := BytesOf(bkg);
    GatherAndConvert(cv, info, buf, tconv, bkg);
    StoreConverted(store, ds, cv, file, mem, info, key, ops, buf, tconv[..], given, before, done, held);
    held' := HeldBy(ds, file, mem, info, given, held);
  }

  lemma {:induction false} LinearAtLeast(space: Space, i: nat)
    requires space.Valid() && i < |space.pts|
    ensures Linear(space.pts[i], space.dims) >= i
  {
    if i > 0 {
      LinearAtLeast(space, i - 1);
      LinearMonotone(space.pts[i - 1], space.pts[i], space.dims);
    }
  }

  /** No more points are selected than there are. */
  lemma SelectionBound(space: Space)
    requires space.Valid()
    ensures |space.pts| <= Size(space.dims)
  {
    if space.pts != [] {
      LinearAtLeast(space, |space.pts| - 1);
    }
  }

  lemma PiecesExist(infos: seq<ChunkInfo>, ds: Dset, file: Space, mem: Space)
    requires Pieces(infos, ds, file, mem) && file.pts != []
    ensures infos != []
  {
    assert Listed(infos, ChunkOf(file.pts[0], GridOf(ds)));
  }

  ghost function NoneHeld(n: nat): (held: seq<Bytes>)
    ensures |held| == n
  {
    seq(n, _ => [])
  }

  lemma NothingConverted(objs: Objects, ds: Dset, cv: Conversion, file: Space, mem: Space, buf: Bytes,
                         infos: seq<ChunkInfo>)
    requires Typed(ds, cv, file, mem, |buf|)
    ensures ConvertedSoFar(objs, objs, ds, cv, file, mem, buf, Corners(infos[..0]), NoneHeld(|file.pts|))
    ensures OthersKept(objs, objs, ds)
  {
    hide StoredElement, DatasetByte, NewElement;
    assert Corners(infos[..0]) == {};
  }

  lemma AllConverted(before: Objects, now: Objects, ds: Dset, cv: Conversion, file: Space, mem: Space, buf: Bytes,
                     infos: seq<ChunkInfo>, held: seq<Bytes>)
    requires Typed(ds, cv, file, mem, |buf|) && Pieces(infos, ds, file, mem)
    requires ConvertedSoFar(before, now, ds, cv, file, mem, buf, Corners(infos), held)
    ensures ConvertedTo(before, now, ds, cv, file, mem, buf, held)
  {
    hide StoredElement, DatasetByte, NewElement, Piece;
    forall k: nat | k < |file.pts|
      ensures StoredElement(now, ds, file.pts[k]) == NewElement(before, ds, cv, file, mem, buf, k, held[k])
    {
      assert Listed(infos, ChunkOf(file.pts[k], GridOf(ds)));
    }
  }

  lemma NewCorner(infos: seq<ChunkInfo>, ds: Dset, file: Space, i: nat)
    requires ds.Valid() && OneEach(infos, ds, file) && i < |infos|
    ensures infos[i].coords !in Corners(infos[..i])
  {
    assert forall k :: 0 <= k < i ==> infos[..i][k] == infos[k];
  }

  /** A selection's elements fit the buffers that were made for all elements of a chunk. */
  lemma ChunkFits(info: ChunkInfo, grid: seq<nat>, size: nat, n: nat)
    requires info.fspace.Valid() && info.fspace.dims == grid && size <= n
    ensures Span(|info.fspace.pts|, size) <= Span(Size(grid), n)
  {
    SelectionBound(info.fspace);
    ScaleLe(|info.fspace.pts|, Size(grid), size);
    ScaleUp(Size(grid), size, n);
  }

  lemma ScaleUp(c: nat, a: nat, b: nat)
    requires a <= b
    ensures c * a <= c * b
  {
  }

  /** Each entry's elements fit a background buffer of n bytes. */
  predicate BackgroundSuffices(infos: seq<ChunkInfo>, ds: Dset, n: nat) {
    forall i :: 0 <= i < |infos| ==> Span(|infos[i].fspace.pts|, ds.typeSize) <= n
  }

  /** The conversion buffer holds the elements of every entry before and after conversion. */
  predicate ConversionFits(infos: seq<ChunkInfo>, ds: Dset, cv: Conversion, n: nat) {
    forall i :: 0 <= i < |infos| ==>
      Span(|infos[i].fspace.pts|, SizeOf(cv.memType)) <= n && Span(|infos[i].fspace.pts|, ds.typeSize) <= n
  }

  lemma AllFit(infos: seq<ChunkInfo>, ds: Dset, cv: Conversion, file: Space, mem: Space, larger: nat)
    requires Pieces(infos, ds, file, mem) && SizeOf(cv.memType) <= larger && ds.typeSize <= larger
    ensures ConversionFits(infos, ds, cv, Span(Size(GridOf(ds)), larger))
  {
    hide Span, Size;
    forall i | 0 <= i < |infos|
      ensures Span(|infos[i].fspace.pts|, SizeOf(cv.memType)) <= Span(Size(GridOf(ds)), larger)
      ensures Span(|infos[i].fspace.pts|, ds.typeSize) <= Span(Size(GridOf(ds)), larger)
    {
      ChunkFits(infos[i], GridOf(ds), SizeOf(cv.memType), larger);
      ChunkFits(infos[i], GridOf(ds), ds.typeSize, larger);
    }
  }

  /** Makes the buffers for whole chunks and goes through them. */
  /** What one round of the loop needs of its entry. */
  lemma EntryReady(infos: seq<ChunkInfo>, ds: Dset, cv: Conversion, file: Space, mem: Space, i: nat, n: nat)
    requires Pieces(infos, ds, file, mem) && OneEach(infos, ds, file) && i < |infos|
    requires ConversionFits(infos, ds, cv, n)
    ensures Piece(infos[i], GridOf(ds), file, mem) && infos[i].coords !in Corners(infos[..i])
    ensures Span(|infos[i].fspace.pts|, SizeOf(cv.memType)) <= n && Span(|infos[i].fspace.pts|, ds.typeSize) <= n
  {
    NewCorner(infos, ds, file, i);
    hide Span, Piece, SizeOf;
  }

  lemma EntrySuffices(infos: seq<ChunkInfo>, ds: Dset, i: nat, n: nat)
    requires BackgroundSuffices(infos, ds, n) && i < |infos|
    ensures Span(|infos[i].fspace.pts|, ds.typeSize) <= n
  {
    hide Span;
  }

  method WriteConvertedEntry(store: ObjectStore, ds: Dset, cv: Conversion, file: Space, mem: Space,
                             infos: seq<ChunkInfo>, i: nat, buf: Bytes, fill: bool, tconv: array<byte>,
                             bkg: array?<byte>, oldBuf: array?<char>, ghost before: Objects, ghost held: seq<Bytes>)
    returns (oidBuf: array<char>, ghost held': seq<Bytes>)
    requires Typed(ds, cv, file, mem, |buf|) && i < |infos|
    requires Pieces(infos, ds, file, mem) && OneEach(infos, ds, file)
    requires (fill <==> cv.Fills()) && (fill ==> bkg != null)
    requires ConversionFits(infos, ds, cv, tconv.Length)
    requires bkg != null ==> bkg != tconv && BackgroundSuffices(infos, ds, bkg.Length)
    requires oldBuf != null ==> oldBuf.Length == 2 + |ds.file| + 16 + |ds.dims| * 16 + 1
    requires OthersKept(before, store.objects, ds)
    requires ConvertedSoFar(before, store.objects, ds, cv, file, mem, buf, Corners(infos[..i]), held)
    modifies store, tconv
    modifies if bkg == null then {} else {bkg}
    modifies if oldBuf == null then {} else {oldBuf}
    ensures oidBuf.Length == 2 + |ds.file| + 16 + |ds.dims| * 16 + 1
    ensures if oldBuf == null then fresh(oidBuf) else oidBuf == oldBuf
    ensures OthersKept(before, store.objects, ds)
    ensures ConvertedSoFar(before, store.objects, ds, cv, file, mem, buf, Corners(infos[..i + 1]), held')
  {
    EntryReady(infos, ds, cv, file, mem, i, tconv.Length);
    if bkg != null {
      EntrySuffices(infos, ds, i, bkg.Length);
    }
    CornersStep(infos, i);
    hide *;
    oidBuf, held' := WriteConvertedChunk(store, ds, cv, file, mem, infos[i], buf, fill, tconv, bkg, oldBuf,
                                         before, Corners(infos[..i]), held);
  }

  /** The loop over the chunks, when types differ. */
  method WriteConverted(store: ObjectStore, ds: Dset, cv: Conversion, file: Space, mem: Space, info: seq<ChunkInfo>,
                        buf: Bytes, needBkg: bool, fill: bool) returns (ghost held: seq<Bytes>)
    requires Typed(ds, cv, file, mem, |buf|) && file.pts != []
    requires Pieces(info, ds, file, mem) && OneEach(info, ds, file)
    requires (fill <==> cv.Fills()) && (fill ==> needBkg)
    requires needBkg ==> BackgroundSuffices(info, ds, Span(Size(GridOf(ds)), SizeOf(cv.memType)))
    modifies store
    ensures ConvertedTo(old(store.objects), store.objects, ds, cv, file, mem, buf, held)
    ensures OthersKept(old(store.objects), store.objects, ds)
  {
    hide Span, Size, Conversion.Valid;
    PiecesExist(info, ds, file, mem);
    var from, to := SizeOf(cv.memType), ds.typeSize;
    var larger := if from < to then to else from;
    var numElemChunk := Size(info[0].fspace.dims);
    AllFit(info, ds, cv, file, mem, larger);
    var tconv := new byte[Span(numElemChunk, larger)];
    var bkg: array?<byte> := null;
    if needBkg {
      bkg := new byte[Span(numElemChunk, from)];
    }
    hide *;
    held := WriteConvertedChunks(store, ds, cv, file, mem, info, buf, fill, tconv, bkg);
  }

  /** The loop over the chunks, when types differ. */
  method WriteConvertedChunks(store: ObjectStore, ds: Dset, cv: Conversion, file: Space, mem: Space,
                              info: seq<ChunkInfo>, buf: Bytes, fill: bool, tconv: array<byte>, bkg: array?<byte>)
    returns (ghost held: seq<Bytes>)
    requires Typed(ds, cv, file, mem, |buf|)
    requires Pieces(info, ds, file, mem) && OneEach(info, ds, file)
    requires (fill <==> cv.Fills()) && (fill ==> bkg != null)
    requires ConversionFits(info, ds, cv, tconv.Length)
    requires bkg != null ==> bkg != tconv && BackgroundSuffices(info, ds, bkg.Length)
    modifies store, tconv, if bkg == null then {} else {bkg}
    ensures ConvertedTo(old(store.objects), store.objects, ds, cv, file, mem, buf, held)
    ensures OthersKept(old(store.objects), store.objects, ds)
  {
    ghost var before := store.objects;
    var oidBuf: array?<char> := null;
    held := NoneHeld(|file.pts|);
    NothingConverted(before, ds, cv, file, mem, buf, info);
    hide *;
    var i := 0;
    while i < |info|
      invariant i <= |info|
      invariant oidBuf != null ==> fresh(oidBuf) && oidBuf.Length == 2 + |ds.file| + 16 + |ds.dims| * 16 + 1
      invariant ConvertedSoFar(before, store.objects, ds, cv, file, mem, buf, Corners(info[..i]), held)
      invariant OthersKept(before, store.objects, ds)
    {
      oidBuf, held := WriteConvertedEntry(store, ds, cv, file, mem, info, i, buf, fill, tconv, bkg, oidBuf,
                                          before, held);
      i := i + 1;
    }
    assert info[..i] == info;
    AllConverted(before, store.objects, ds, cv, file, mem, buf, info, held);
  }

  // ----- the call -----

  /** Does some chunk's selection need more background than memory elements for a whole chunk
      take? The background buffer is made that large. */
  ghost predicate Overruns(ds: Dset, cv: Conversion, file: Space)
    requires ds.Valid() && file.Valid() && file.dims == ds.dims
  {
    exists k :: 0 <= k < |file.pts| && OverrunAt(ds, cv, file, ChunkOf(file.pts[k], GridOf(ds)))
  }

  ghost predicate OverrunAt(ds: Dset, cv: Conversion, file: Space, c: Coord)
    requires ds.Valid()
  {
    Span(|Within(file.pts, c, GridOf(ds))|, ds.typeSize) > Span(Size(GridOf(ds)), SizeOf(cv.memType))
  }

  lemma EntriesOverrun(infos: seq<ChunkInfo>, ds: Dset, cv: Conversion, file: Space, mem: Space)
    requires Pieces(infos, ds, file, mem) && OneEach(infos, ds, file)
    ensures !Overruns(ds, cv, file) <==> BackgroundSuffices(infos, ds, Span(Size(GridOf(ds)), SizeOf(cv.memType)))
  {
    var grid := GridOf(ds);
    if k :| 0 <= k < |file.pts| && OverrunAt(ds, cv, file, ChunkOf(file.pts[k], grid)) {
      assert Listed(infos, ChunkOf(file.pts[k], grid));
    }
    if i :| 0 <= i < |infos| && Span(|infos[i].fspace.pts|, ds.typeSize) > Size(grid) * SizeOf(cv.memType) {
      assert HasIndex(infos[i], grid, file, mem, 0);
      var k: nat :| SamePoint(infos[i], grid, file, mem, 0, k);
      assert OverrunAt(ds, cv, file, ChunkOf(file.pts[k], grid));
    }
  }

  datatype TypedStatus = Checked(status: Status) | NoConversion | BackgroundTooSmall

  /** What the caller must supply, with a buffer of memory elements. */
  ghost predicate TypedArgsOk(ds: Dset, cv: Conversion, file: SpaceArg, mem: SpaceArg, n: nat) {
    && cv.Valid() && ds.Valid() && SizeOf(cv.fileType) == ds.typeSize
    && ArgsOk(ds.(typeSize := SizeOf(cv.memType)), file, mem, n)
  }

  lemma TypedArgs(ds: Dset, cv: Conversion, file: SpaceArg, mem: SpaceArg, n: nat)
    requires TypedArgsOk(ds, cv, file, mem, n)
    ensures var f, m := RealFile(ds, file), RealMem(ds, file, mem);
      && f.Valid() && m.Valid() && f.dims == ds.dims
      && (|f.pts| == |m.pts| ==> Typed(ds, cv, f, m, n))
      && (ds.layout.Chunked? ==> Compatible(f, m, GridOf(ds)))
      && (cv.equal ==> ArgsOk(ds, file, mem, n))
  {
    var ds' := ds.(typeSize := SizeOf(cv.memType));
    assert RealFile(ds', file) == RealFile(ds, file) && RealMem(ds', file, mem) == RealMem(ds, file, mem);
    RealSpacesValid(ds', file, mem, n);
    assert GridOf(ds') == GridOf(ds);
  }

  // ----- what each byte becomes -----

  /** The route leads to a simple type inside the file type that holds byte b. */
  ghost predicate ReachesByte(cv: Conversion, r: Route, b: int) {
    LeafAt(cv.memType, cv.fileType, r).Some? && Covers(LeafAt(cv.memType, cv.fileType, r).value, b)
  }

  /** What the conversion of simple types makes of a leaf's own source bytes. */
  ghost function LeafValue(cv: Conversion, r: Route, source: Bytes, b: int): byte
    requires LeafAt(cv.memType, cv.fileType, r).Some?
  {
    var l := LeafAt(cv.memType, cv.fileType, r).value;
    cv.atoms(l.src, l.dst, source, b - l.dstOff)
  }

  /** The part of a memory element that a leaf is converted from. */
  ghost function LeafSource(cv: Conversion, element: Bytes, r: Route): (source: Bytes)
    requires LeafAt(cv.memType, cv.fileType, r).Some?
  {
    var l := LeafAt(cv.memType, cv.fileType, r).value;
    Part(element, l.srcOff, SizeOf(l.src))
  }

  /** The conversion reaches the byte on no route. */
  ghost predicate Unreached(cv: Conversion, b: int) {
    forall r :: !ReachesByte(cv, r, b)
  }

  lemma UnwrittenByte(cv: Conversion, s: Bytes, b: Bytes, o: nat)
    requires cv.Valid() && o < SizeOf(cv.fileType) && !Writes(cv.memType, cv.fileType, o)
    ensures cv.Apply(s, b)[o] == At(b, o)
  {
    WrittenOrBackground(cv.atoms, cv.memType, cv.fileType, s, b, b, o);
  }

  /** In any case, a byte of a simple type is the conversion of the source's own bytes, and any other
      byte stays if the background was filled, else it is taken from what the background buffer
      held. */
  lemma EachByte(before: Objects, now: Objects, ds: Dset, cv: Conversion, file: Space, mem: Space, buf: Bytes,
                 held: seq<Bytes>, k: nat, b: nat)
    requires Typed(ds, cv, file, mem, |buf|) && ConvertedTo(before, now, ds, cv, file, mem, buf, held)
    requires Convertible(cv.memType, cv.fileType) && k < |file.pts| && b < ds.typeSize
    ensures forall r :: ReachesByte(cv, r, b) ==>
      DatasetByte(now, ds, file.pts[k], b)
        == LeafValue(cv, r, LeafSource(cv, MemElement(mem, SizeOf(cv.memType), buf, k), r), b)
    ensures Unreached(cv, b) ==>
      DatasetByte(now, ds, file.pts[k], b) ==
        if cv.Fills() then DatasetByte(before, ds, file.pts[k], b) else At(held[k], b)
  {
    var s, p := MemElement(mem, SizeOf(cv.memType), buf, k), file.pts[k];
    var bkg := cv.Background(StoredElement(before, ds, p), held[k]);
    ByteIsConverted(before, now, ds, cv, file, mem, buf, held, k, b);
    hide MemElement, Conversion.Apply, ConvertedTo, DatasetByte, Space.Valid, Converted, Part, LeafAt, WellFormed;
    hide Convertible;
    forall r | ReachesByte(cv, r, b) ensures DatasetByte(now, ds, p, b) == LeafValue(cv, r, LeafSource(cv, s, r), b) {
      LeafAtByte(before, now, ds, cv, file, mem, buf, held, k, b, r);
    }
    if Unreached(cv, b) {
      UnreachedByte(cv, s, bkg, b);
      StoredByte(before, ds, p, b);
    }
    hide Unreached, ReachesByte, Conversion.Fills, StoredElement;
  }

  lemma LeafAtByte(before: Objects, now: Objects, ds: Dset, cv: Conversion, file: Space, mem: Space, buf: Bytes,
                   held: seq<Bytes>, k: nat, b: nat, r: Route)
    requires Typed(ds, cv, file, mem, |buf|) && ConvertedTo(before, now, ds, cv, file, mem, buf, held)
    requires Convertible(cv.memType, cv.fileType) && k < |file.pts| && b < ds.typeSize && ReachesByte(cv, r, b)
    ensures DatasetByte(now, ds, file.pts[k], b)
      == LeafValue(cv, r, LeafSource(cv, MemElement(mem, SizeOf(cv.memType), buf, k), r), b)
  {
    TypedPoint(ds, cv, file, mem, |buf|, k, r, b);
    ByteIsConverted(before, now, ds, cv, file, mem, buf, held, k, b);
    hide *;
    LeafConverted(cv, MemElement(mem, SizeOf(cv.memType), buf, k),
                  cv.Background(StoredElement(before, ds, file.pts[k]), held[k]), r, b);
  }

  lemma LeafConverted(cv: Conversion, element: Bytes, bkg: Bytes, r: Route, b: int)
    requires WellFormed(cv.memType) && WellFormed(cv.fileType) && Convertible(cv.memType, cv.fileType)
    requires |element| == SizeOf(cv.memType) && ReachesByte(cv, r, b)
    ensures Converted(cv.atoms, cv.memType, cv.fileType, element, bkg, b)
      == LeafValue(cv, r, LeafSource(cv, element, r), b)
  {
    LeafByte(cv.atoms, cv.memType, cv.fileType, element, bkg, r, b);
  }

  lemma ByteIsConverted(before: Objects, now: Objects, ds: Dset, cv: Conversion, file: Space, mem: Space, buf: Bytes,
                        held: seq<Bytes>, k: nat, b: nat)
    requires Typed(ds, cv, file, mem, |buf|) && ConvertedTo(before, now, ds, cv, file, mem, buf, held)
    requires k < |file.pts| && b < ds.typeSize
    ensures var s := MemElement(mem, SizeOf(cv.memType), buf, k);
      var bkg := cv.Background(StoredElement(before, ds, file.pts[k]), held[k]);
      DatasetByte(now, ds, file.pts[k], b) == Converted(cv.atoms, cv.memType, cv.fileType, s, bkg, b)
  {
    StoredByte(now, ds, file.pts[k], b);
    hide MemElement, Conversion.Background, DatasetByte, Space.Valid, Converted, WellFormed, StoredElement;
  }

  lemma ReachedIfWritten(cv: Conversion, b: int)
    requires Writes(cv.memType, cv.fileType, b)
    ensures exists r :: ReachesByte(cv, r, b)
  {
    var r := WrittenInLeaf(cv.memType, cv.fileType, b);
    assert ReachesByte(cv, r, b);
  }

  /** The bytes that no route reaches are those that the conversion does not write. */
  lemma UnreachedIff(cv: Conversion, b: int)
    ensures Unreached(cv, b) <==> !Writes(cv.memType, cv.fileType, b)
  {
    if Writes(cv.memType, cv.fileType, b) {
      ReachedIfWritten(cv, b);
    }
    forall r | ReachesByte(cv, r, b) ensures Writes(cv.memType, cv.fileType, b) {
      LeafWrites(cv.memType, cv.fileType, r, b);
    }
    hide Writes, ReachesByte;
  }

  lemma UnreachedByte(cv: Conversion, s: Bytes, bkg: Bytes, b: nat)
    requires cv.Valid() && b < SizeOf(cv.fileType) && Unreached(cv, b)
    ensures Converted(cv.atoms, cv.memType, cv.fileType, s, bkg, b) == At(bkg, b)
  {
    UnreachedIff(cv, b);
    WrittenOrBackground(cv.atoms, cv.memType, cv.fileType, s, bkg, bkg, b);
  }

  lemma PartIsSlice(buf: Bytes, at: nat, n: nat)
    requires at + n <= |buf|
    ensures Part(buf, at, n) == buf[at..at + n]
  {
    var part := Part(buf, at, n);
    forall i | 0 <= i < n ensures part[i] == buf[at..at + n][i] {
      PartAt(buf, at, n, i);
    }
  }

  /** The source's own bytes of a leaf are a stretch of the memory buffer. */
  lemma LeafFromBuffer(cv: Conversion, mem: Space, buf: Bytes, k: nat, r: Route)
    requires cv.Valid() && mem.Valid() && k < |mem.pts| && BufferFits(mem, SizeOf(cv.memType), |buf|)
    requires Convertible(cv.memType, cv.fileType) && LeafAt(cv.memType, cv.fileType, r).Some?
    ensures var l, size := LeafAt(cv.memType, cv.fileType, r).value, SizeOf(cv.memType);
      var at := BufferOffset(mem.pts[k], mem.dims, size, 0) + l.srcOff;
      && 0 <= at && at + SizeOf(l.src) <= |buf|
      && LeafSource(cv, MemElement(mem, size, buf, k), r) == buf[at..at + SizeOf(l.src)]
  {
    var l, size := LeafAt(cv.memType, cv.fileType, r).value, SizeOf(cv.memType);
    LeafInsideSrc(cv.memType, cv.fileType, r);
    ElementFits(mem, size, |buf|, k);
    MemElementIsPart(mem, size, buf, k);
    var start := Starts(mem, size)[k];
    assert start == BufferOffset(mem.pts[k], mem.dims, size, 0);
    var element := MemElement(mem, size, buf, k);
    assert LeafSource(cv, element, r) == Part(element, l.srcOff, SizeOf(l.src));
    hide *;
    PartOfPart(buf, start, size, l.srcOff, SizeOf(l.src));
    PartIsSlice(buf, start + l.srcOff, SizeOf(l.src));
  }

  /** Byte b of point p is the conversion of the source's bytes at point q of memory. */
  ghost predicate LeafStored(now: Objects, ds: Dset, cv: Conversion, mdims: seq<nat>, buf: Bytes,
                             p: Coord, q: Coord, r: Route, b: nat)
    requires ds.Valid() && InExtent(p, ds.dims) && InExtent(q, mdims) && ReachesByte(cv, r, b)
  {
    var l := LeafAt(cv.memType, cv.fileType, r).value;
    var at := BufferOffset(q, mdims, SizeOf(cv.memType), 0) + l.srcOff;
    && 0 <= at && at + SizeOf(l.src) <= |buf|
    && DatasetByte(now, ds, p, b) == cv.atoms(l.src, l.dst, buf[at..at + SizeOf(l.src)], b - l.dstOff)
  }

  /** What a converting write means: each byte of a simple type is converted from the memory element's
      bytes for it, the others stay if the background was filled, and so does every other point. */
  ghost predicate WroteAs(before: Objects, now: Objects, ds: Dset, cv: Conversion, file: SpaceArg, mem: SpaceArg,
                          buf: Bytes)
    requires ds.Valid()
  {
    var mdims := MemDims(ds.dims, mem);
    && (forall p, q, r, b: nat :: Together(ds.dims, file, mem, p, q) && ReachesByte(cv, r, b) ==>
          LeafStored(now, ds, cv, mdims, buf, p, q, r, b))
    && (forall p, q, b: nat ::
          Together(ds.dims, file, mem, p, q) && b < ds.typeSize && cv.Fills() && Unreached(cv, b) ==>
            DatasetByte(now, ds, p, b) == DatasetByte(before, ds, p, b))
    && (forall p, b: nat :: InExtent(p, ds.dims) && !Selected(ds.dims, file, p) && b < ds.typeSize ==>
          DatasetByte(now, ds, p, b) == DatasetByte(before, ds, p, b))
  }

  /** The real spaces of a converting write. */
  ghost predicate ConvertedReal(before: Objects, now: Objects, ds: Dset, cv: Conversion, file: SpaceArg,
                                mem: SpaceArg, buf: Bytes, held: seq<Bytes>)
  {
    var f, m := RealFile(ds, file), RealMem(ds, file, mem);
    && TypedArgsOk(ds, cv, file, mem, |buf|) && FileCount(ds.dims, file) == MemCount(ds.dims, file, mem)
    && Convertible(cv.memType, cv.fileType)
    && Typed(ds, cv, f, m, |buf|) && ConvertedTo(before, now, ds, cv, f, m, buf, held)
  }

  lemma PositionOf(ds: Dset, cv: Conversion, file: SpaceArg, mem: SpaceArg, n: nat, p: Coord, q: Coord)
    returns (k: nat)
    requires TypedArgsOk(ds, cv, file, mem, n) && FileCount(ds.dims, file) == MemCount(ds.dims, file, mem)
    requires Together(ds.dims, file, mem, p, q)
    ensures var f, m := RealFile(ds, file).pts, RealMem(ds, file, mem).pts;
      k < |f| == |m| && f[k] == p && m[k] == q
    ensures RealMem(ds, file, mem).dims == MemDims(ds.dims, mem)
  {
    var ds' := ds.(typeSize := SizeOf(cv.memType));
    RealTogether(ds', file, mem, n, p, q);
    RealDims(ds', file, mem, n);
    var f, m := RealFile(ds, file).pts, RealMem(ds, file, mem).pts;
    k :| 0 <= k < |f| && f[k] == p && m[k] == q;
    hide Together, ArgsOk, FileCount, MemCount;
  }

  lemma LeafAtPosition(before: Objects, now: Objects, ds: Dset, cv: Conversion, file: Space, mem: Space, buf: Bytes,
                       held: seq<Bytes>, k: nat, r: Route, b: nat)
    requires Typed(ds, cv, file, mem, |buf|) && ConvertedTo(before, now, ds, cv, file, mem, buf, held)
    requires Convertible(cv.memType, cv.fileType) && k < |file.pts| && ReachesByte(cv, r, b)
    ensures InExtent(file.pts[k], ds.dims) && InExtent(mem.pts[k], mem.dims)
    ensures LeafStored(now, ds, cv, mem.dims, buf, file.pts[k], mem.pts[k], r, b)
  {
    TypedPoint(ds, cv, file, mem, |buf|, k, r, b);
    hide *;
    LeafFromBuffer(cv, mem, buf, k, r);
    LeafAtByte(before, now, ds, cv, file, mem, buf, held, k, b, r);
    LeafIsStored(now, ds, cv, mem.dims, buf, file.pts[k], mem.pts[k], r, b,
                 LeafSource(cv, MemElement(mem, SizeOf(cv.memType), buf, k), r));
  }

  lemma TypedPoint(ds: Dset, cv: Conversion, file: Space, mem: Space, n: nat, k: nat, r: Route, b: nat)
    requires Typed(ds, cv, file, mem, n) && k < |file.pts| && ReachesByte(cv, r, b)
    ensures WellFormed(cv.memType) && WellFormed(cv.fileType)
    ensures ds.Valid() && cv.Valid() && mem.Valid() && |mem.pts| == |file.pts| && BufferFits(mem, SizeOf(cv.memType), n)
    ensures InExtent(file.pts[k], ds.dims) && InExtent(mem.pts[k], mem.dims)
    ensures b < ds.typeSize && LeafAt(cv.memType, cv.fileType, r).Some?
  {
    LeafInsideDst(cv.memType, cv.fileType, r);
  }

  lemma LeafIsStored(now: Objects, ds: Dset, cv: Conversion, mdims: seq<nat>, buf: Bytes, p: Coord, q: Coord, r: Route,
                     b: nat, source: Bytes)
    requires ds.Valid() && InExtent(p, ds.dims) && InExtent(q, mdims) && ReachesByte(cv, r, b)
    requires var l := LeafAt(cv.memType, cv.fileType, r).value;
      var at := BufferOffset(q, mdims, SizeOf(cv.memType), 0) + l.srcOff;
      && 0 <= at && at + SizeOf(l.src) <= |buf| && source == buf[at..at + SizeOf(l.src)]
      && DatasetByte(now, ds, p, b) == LeafValue(cv, r, source, b)
    ensures LeafStored(now, ds, cv, mdims, buf, p, q, r, b)
  {
  }

  lemma LeafOfPoint(before: Objects, now: Objects, ds: Dset, cv: Conversion, file: SpaceArg, mem: SpaceArg, buf: Bytes,
                    held: seq<Bytes>, p: Coord, q: Coord, r: Route, b: nat)
    requires ConvertedReal(before, now, ds, cv, file, mem, buf, held)
    requires Together(ds.dims, file, mem, p, q) && ReachesByte(cv, r, b)
    ensures LeafStored(now, ds, cv, MemDims(ds.dims, mem), buf, p, q, r, b)
  {
    var f, m := RealFile(ds, file), RealMem(ds, file, mem);
    var k := PositionOf(ds, cv, file, mem, |buf|, p, q);
    LeafAtPosition(before, now, ds, cv, f, m, buf, held, k, r, b);
    hide *;
  }

  lemma KeptOfPoint(before: Objects, now: Objects, ds: Dset, cv: Conversion, file: SpaceArg, mem: SpaceArg, buf: Bytes,
                    held: seq<Bytes>, p: Coord, q: Coord, b: nat)
    requires ConvertedReal(before, now, ds, cv, file, mem, buf, held)
    requires Together(ds.dims, file, mem, p, q) && b < ds.typeSize && cv.Fills() && Unreached(cv, b)
    ensures DatasetByte(now, ds, p, b) == DatasetByte(before, ds, p, b)
  {
    var f, m := RealFile(ds, file), RealMem(ds, file, mem);
    var k := PositionOf(ds, cv, file, mem, |buf|, p, q);
    EachByte(before, now, ds, cv, f, m, buf, held, k, b);
    hide DatasetByte, ConvertedTo, Conversion.Fills, TypedArgsOk, Typed, Together;
  }

  /** A converting write of the real spaces is what the arguments mean. */
  lemma ConvertedIsWroteAs(before: Objects, now: Objects, ds: Dset, cv: Conversion, file: SpaceArg, mem: SpaceArg,
                           buf: Bytes, held: seq<Bytes>)
    requires ConvertedReal(before, now, ds, cv, file, mem, buf, held)
    ensures WroteAs(before, now, ds, cv, file, mem, buf)
  {
    forall p, q, r, b: nat | Together(ds.dims, file, mem, p, q) && ReachesByte(cv, r, b)
      ensures LeafStored(now, ds, cv, MemDims(ds.dims, mem), buf, p, q, r, b)
    {
      LeafOfPoint(before, now, ds, cv, file, mem, buf, held, p, q, r, b);
    }
    forall p, q, b: nat | Together(ds.dims, file, mem, p, q) && b < ds.typeSize && cv.Fills() && Unreached(cv, b)
      ensures DatasetByte(now, ds, p, b) == DatasetByte(before, ds, p, b)
    {
      KeptOfPoint(before, now, ds, cv, file, mem, buf, held, p, q, b);
    }
    forall p, b: nat | InExtent(p, ds.dims) && !Selected(ds.dims, file, p) && b < ds.typeSize
      ensures DatasetByte(now, ds, p, b) == DatasetByte(before, ds, p, b)
    {
      RealSelected(ds, file, p);
    }
    hide DatasetByte, Together, LeafStored, ReachesByte, Selected, TypedArgsOk, Convertible, Conversion.Fills, MemDims;
    hide RealFile, RealMem, NewElement, StoredElement, FileCount, MemCount;
  }

  /** The outcome of a write, checked in the order the code checks. */
  ghost function TypedOutcome(ds: Dset, cv: Conversion, file: SpaceArg, mem: SpaceArg, n: nat): TypedStatus
    requires TypedArgsOk(ds, cv, file, mem, n)
  {
    TypedArgs(ds, cv, file, mem, n);
    var plain := Outcome(ds.(typeSize := SizeOf(cv.memType)), file, mem, n, true);
    if cv.equal || plain == NoWriteIntent || plain == SizeMismatch || FileCount(ds.dims, file) == 0 then Checked(plain)
    else if Fails(cv.fileType, cv.memType) then NoConversion
    else if plain == ShapeMismatch then Checked(ShapeMismatch)
    else if NeedsBuffer(cv.memType) && Overruns(ds, cv, RealFile(ds, file)) then BackgroundTooSmall
    else if !Convertible(cv.memType, cv.fileType) then NoConversion
    else Checked(Done)
  }

  /** The outcome in terms of the real spaces, when there is something to convert. */
  lemma OutcomeOfConversion(ds: Dset, cv: Conversion, file: SpaceArg, mem: SpaceArg, n: nat)
    requires TypedArgsOk(ds, cv, file, mem, n) && !cv.equal && ds.writable
    requires FileCount(ds.dims, file) == MemCount(ds.dims, file, mem) > 0
    ensures RealFile(ds, file).Valid() && RealFile(ds, file).dims == ds.dims
    ensures TypedOutcome(ds, cv, file, mem, n) ==
      if Fails(cv.fileType, cv.memType) then NoConversion
      else if !ShapesAgree(ds, RealFile(ds, file), RealMem(ds, file, mem)) then Checked(ShapeMismatch)
      else if NeedsBuffer(cv.memType) && Overruns(ds, cv, RealFile(ds, file)) then BackgroundTooSmall
      else if !Convertible(cv.memType, cv.fileType) then NoConversion
      else Checked(Done)
  {
    TypedArgs(ds, cv, file, mem, n);
    ShapesIff(ds.(typeSize := SizeOf(cv.memType)), file, mem, n);
    hide Fails, NeedsBuffer, Overruns, Convertible, MovesBy, FileCount, MemCount;
  }

  /** Without a selected point a write has nothing to do. */
  lemma NothingToConvert(objs: Objects, ds: Dset, cv: Conversion, file: SpaceArg, mem: SpaceArg, buf: Bytes)
    requires TypedArgsOk(ds, cv, file, mem, |buf|)
    requires FileCount(ds.dims, file) == MemCount(ds.dims, file, mem) == 0
    ensures WroteAs(objs, objs, ds, cv, file, mem, buf)
    ensures Typed(ds, cv, RealFile(ds, file), RealMem(ds, file, mem), |buf|)
    ensures ConvertedTo(objs, objs, ds, cv, RealFile(ds, file), RealMem(ds, file, mem), buf, [])
  {
    TypedArgs(ds, cv, file, mem, |buf|);
    RealCounts(ds, file, mem);
    forall p, q ensures !Together(ds.dims, file, mem, p, q) {
      if Together(ds.dims, file, mem, p, q) {
        var k := PositionOf(ds, cv, file, mem, |buf|, p, q);
        assert false;
      }
    }
    hide Together, ReachesByte, Unreached, LeafStored, DatasetByte, Conversion.Fills, Selected;
  }

  method BackgroundFits(ds: Dset, cv: Conversion, info: seq<ChunkInfo>, ghost file: Space, ghost mem: Space)
    returns (fits: bool)
    requires Pieces(info, ds, file, mem) && OneEach(info, ds, file) && info != []
    ensures fits <==> !Overruns(ds, cv, file)
    ensures fits <==> BackgroundSuffices(info, ds, Span(Size(GridOf(ds)), SizeOf(cv.memType)))
  {
    EntriesOverrun(info, ds, cv, file, mem);
    hide Span, Size, SizeOf, Overruns, OneEach;
    fits := BackgroundSuffices(info, ds, Span(Size(info[0].fspace.dims), SizeOf(cv.memType)));
  }

  /** H5VL_dtio_dataset_write for one dataset, with any memory type. */
  method DatasetWriteAs(store: ObjectStore, ds: Dset, cv: Conversion, fileArg: SpaceArg, memArg: SpaceArg, buf: Bytes)
    returns (r: TypedStatus, ghost held: seq<Bytes>)
    requires TypedArgsOk(ds, cv, fileArg, memArg, |buf|)
    modifies store
    ensures r == TypedOutcome(ds, cv, fileArg, memArg, |buf|)
    ensures r == Checked(Done) ==>
      if cv.equal then Wrote(old(store.objects), store.objects, ds, fileArg, memArg, buf)
      else WroteAs(old(store.objects), store.objects, ds, cv, fileArg, memArg, buf)
    ensures var file, mem := RealFile(ds, fileArg), RealMem(ds, fileArg, memArg);
      r == Checked(Done) ==>
        && Typed(ds, cv, file, mem, |buf|)
        && (if cv.equal then Written(old(store.objects), store.objects, ds, file, mem, buf)
            else ConvertedTo(old(store.objects), store.objects, ds, cv, file, mem, buf, held))
        && OthersKept(old(store.objects), store.objects, ds)
    ensures r != Checked(Done) ==> store.objects == old(store.objects)
  {
    TypedArgs(ds, cv, fileArg, memArg, |buf|);
    RealCounts(ds, fileArg, memArg);
    hide Wrote, WroteAs, Written, ConvertedTo, OthersKept, Together, Fails, NeedsBuffer, Overruns, Convertible, Typed;
    held := [];
    if cv.equal {
      var status := DatasetWrite(store, ds, fileArg, memArg, buf);
      return Checked(status), held;
    }
    if !ds.writable {
      return Checked(NoWriteIntent), held;
    }
    var file, mem := RealFile(ds, fileArg), RealMem(ds, fileArg, memArg);
    if |file.pts| != |mem.pts| {
      return Checked(SizeMismatch), held;
    }
    if |file.pts| == 0 {
      NothingToConvert(store.objects, ds, cv, fileArg, memArg, buf);
      return Checked(Done), held;
    }
    OutcomeOfConversion(ds, cv, fileArg, memArg, |buf|);
    r, held := ConvertChunks(store, ds, cv, file, mem, memArg.All?, buf);
    if r == Checked(Done) {
      ConvertedIsWroteAs(old(store.objects), store.objects, ds, cv, fileArg, memArg, buf, held);
    }
  }

  /** The part of the call from the walk over the types on, when they are not equal. */
  method ConvertChunks(store: ObjectStore, ds: Dset, cv: Conversion, file: Space, mem: Space, memAll: bool, buf: Bytes)
    returns (r: TypedStatus, ghost held: seq<Bytes>)
    requires Typed(ds, cv, file, mem, |buf|) && file.pts != [] && (memAll ==> mem == file)
    requires ds.layout.Chunked? ==> Compatible(file, mem, GridOf(ds))
    modifies store
    ensures r ==
      if Fails(cv.fileType, cv.memType) then NoConversion
      else if !ShapesAgree(ds, file, mem) then Checked(ShapeMismatch)
      else if NeedsBuffer(cv.memType) && Overruns(ds, cv, file) then BackgroundTooSmall
      else if !Convertible(cv.memType, cv.fileType) then NoConversion
      else Checked(Done)
    ensures r == Checked(Done) ==>
      && ConvertedTo(old(store.objects), store.objects, ds, cv, file, mem, buf, held)
      && OthersKept(old(store.objects), store.objects, ds)
    ensures r != Checked(Done) ==> store.objects == old(store.objects)
  {
    held := [];
    var need, memSize, fill := NeedBkg(cv.fileType, cv.memType);
    if need.WalkFailed? {
      return NoConversion, held;
    }
    var ok, info, len := PrepareChunks(ds, file, mem, memAll);
    if !ok {
      return Checked(ShapeMismatch), held;
    }
    PiecesExist(info[..len], ds, file, mem);
    var fits := BackgroundFits(ds, cv, info[..len], file, mem);
    if need.bkg && !fits {
      return BackgroundTooSmall, held;
    }
    if !Convertible(cv.memType, cv.fileType) {
      return NoConversion, held;
    }
    if !need.bkg {
      FillHasBuffer(cv.fileType, cv.memType);
    }
    held := WriteConverted(store, ds, cv, file, mem, info[..len], buf, need.bkg, fill);
    return Checked(Done), held;
  }

  lemma WroteLeaf(before: Objects, now: Objects, ds: Dset, cv: Conversion, file: SpaceArg, mem: SpaceArg, buf: Bytes,
                  p: Coord, q: Coord, r: Route, b: nat)
    requires ds.Valid() && WroteAs(before, now, ds, cv, file, mem, buf)
    requires Together(ds.dims, file, mem, p, q) && ReachesByte(cv, r, b)
    ensures LeafStored(now, ds, cv, MemDims(ds.dims, mem), buf, p, q, r, b)
  {
    hide DatasetByte, LeafStored, ReachesByte;
  }

  lemma SimpleLeaf(before: Objects, now: Objects, ds: Dset, cv: Conversion, file: SpaceArg, mem: SpaceArg, buf: Bytes,
                   p: Coord, q: Coord, b: nat)
    requires ds.Valid() && WroteAs(before, now, ds, cv, file, mem, buf) && Together(ds.dims, file, mem, p, q)
    requires cv.memType.Atomic? && cv.fileType.Atomic? && b < SizeOf(cv.fileType)
    ensures InExtent(p, ds.dims) && InExtent(q, MemDims(ds.dims, mem))
    ensures var n, at := SizeOf(cv.memType), BufferOffset(q, MemDims(ds.dims, mem), SizeOf(cv.memType), 0);
      at + n <= |buf| && DatasetByte(now, ds, p, b) == cv.atoms(cv.memType, cv.fileType, buf[at..at + n], b)
  {
    assert ReachesByte(cv, Here, b);
    hide DatasetByte, WroteAs, BufferOffset;
    WroteLeaf(before, now, ds, cv, file, mem, buf, p, q, Here, b);
  }

  /** From one simple type to another, each stored byte comes from the bytes of the memory element. */
  lemma SimpleWrite(before: Objects, now: Objects, ds: Dset, cv: Conversion, file: SpaceArg, mem: SpaceArg, buf: Bytes,
                    p: Coord, q: Coord, b: nat)
    requires ds.Valid() && WroteAs(before, now, ds, cv, file, mem, buf) && Together(ds.dims, file, mem, p, q)
    requires cv.memType.Atomic? && cv.fileType.Atomic? && b < SizeOf(cv.fileType)
    ensures var n := SizeOf(cv.memType);
      var at := Linear(q, MemDims(ds.dims, mem)) * n;
      at + n <= |buf| && DatasetByte(now, ds, p, b) == cv.atoms(cv.memType, cv.fileType, buf[at..at + n], b)
  {
    SimpleLeaf(before, now, ds, cv, file, mem, buf, p, q, b);
    hide *;
    OffsetIs(q, MemDims(ds.dims, mem), SizeOf(cv.memType), 0);
  }

  // ----- what a write with conversion promises -----

  /** The file type gets each byte that a source member of its name gives; the other bytes are meant
      to stay. */
  ghost predicate Intended(before: Objects, now: Objects, ds: Dset, cv: Conversion, file: Space, mem: Space, buf: Bytes)
    requires Typed(ds, cv, file, mem, |buf|)
  {
    forall k: nat :: k < |file.pts| ==>
      StoredElement(now, ds, file.pts[k]) ==
        cv.Apply(MemElement(mem, SizeOf(cv.memType), buf, k), StoredElement(before, ds, file.pts[k]))
  }

  /** Whatever the background buffer holds, every element comes out as if converted over the stored
      bytes. */
  ghost predicate HeldIrrelevant(cv: Conversion) {
    forall s: Bytes, stored: Bytes, held: Bytes ::
      cv.Apply(s, cv.Background(stored, held)) == cv.Apply(s, stored)
  }

  /** The walk is asked about the wrong direction. That does no harm if and only if a file type that
      fills the memory type is also filled by it. */
  lemma HarmlessIff(cv: Conversion)
    requires cv.Valid()
    ensures HeldIrrelevant(cv) <==> (Full(cv.fileType, cv.memType) ==> Full(cv.memType, cv.fileType))
  {
    hide Conversion.Apply, Full;
    if Full(cv.memType, cv.fileType) {
      forall s: Bytes, stored: Bytes, held: Bytes
        ensures cv.Apply(s, cv.Background(stored, held)) == cv.Apply(s, stored)
      {
        SameForAll(cv, s, cv.Background(stored, held), stored);
      }
    } else {
      var zero, one := HeldMatters(cv);
      if !cv.Fills() {
        assert cv.Background(zero, one) == one;
      }
    }
  }

  lemma HeldMatters(cv: Conversion) returns (b: Bytes, c: Bytes)
    requires cv.Valid() && !Full(cv.memType, cv.fileType)
    ensures cv.Apply([], b) != cv.Apply([], c)
  {
    var n := SizeOf(cv.fileType);
    var o: nat :| o < n && !Writes(cv.memType, cv.fileType, o);
    b, c := seq(n, _ => 0), seq(n, _ => 1);
    UnwrittenByte(cv, [], b, o);
    UnwrittenByte(cv, [], c, o);
    hide Conversion.Apply;
  }

  lemma SameForAll(cv: Conversion, s: Bytes, b: Bytes, c: Bytes)
    requires cv.Valid() && Full(cv.memType, cv.fileType)
    ensures cv.Apply(s, b) == cv.Apply(s, c)
  {
    forall o: nat | o < SizeOf(cv.fileType) ensures cv.Apply(s, b)[o] == cv.Apply(s, c)[o] {
      WrittenOrBackground(cv.atoms, cv.memType, cv.fileType, s, b, c, o);
    }
  }

  /** Under that condition a write does what it is meant to do. */
  lemma WriteAsIntended(before: Objects, now: Objects, ds: Dset, cv: Conversion, file: Space, mem: Space, buf: Bytes,
                        held: seq<Bytes>)
    requires Typed(ds, cv, file, mem, |buf|) && ConvertedTo(before, now, ds, cv, file, mem, buf, held)
    requires Full(cv.fileType, cv.memType) ==> Full(cv.memType, cv.fileType)
    ensures Intended(before, now, ds, cv, file, mem, buf)
  {
    HarmlessIff(cv);
    hide StoredElement, MemElement, Full, Conversion.Apply, DatasetByte, Space.Valid, Conversion.Valid;
  }

  /** Two members stored, one of them written. */
  const PAIR := Compound(8, [Member("a", 0, Atomic(4)), Member("b", 4, Atomic(4))])
  const HALF := Compound(4, [Member("a", 0, Atomic(4))])

  lemma HalfFilled()
    ensures Full(PAIR, HALF)
  {
    forall o | 0 <= o < 4 ensures Writes(PAIR, HALF, o) {
      assert MemberWrites(PAIR, HALF.members, 0, o);
      CompoundWriter(PAIR, HALF, o);
    }
  }

  lemma SecondUnwritten(b: nat)
    requires 4 <= b < 8
    ensures !Writes(HALF, PAIR, b)
  {
    CompoundWriter(HALF, PAIR, b);
    assert forall i :: 0 <= i < |PAIR.members| ==> !MemberWrites(HALF, PAIR.members, i, b);
  }

  lemma PairConverts()
    ensures WellFormed(PAIR) && WellFormed(HALF) && Convertible(HALF, PAIR) && !Fails(PAIR, HALF)
  {
  }

  /** Writing one member of two is possible, does not fill the background, and so does not keep the
      other member's bytes. */
  lemma PartialWrite(atoms: Atoms)
    ensures var cv := Conversion(atoms, HALF, PAIR, false);
      && cv.Valid() && Convertible(HALF, PAIR) && !Fails(PAIR, HALF)
      && !cv.Fills() && !HeldIrrelevant(cv)
      && (forall b :: 4 <= b < 8 ==> !Writes(HALF, PAIR, b))
  {
    PairConverts();
    HalfFilled();
    forall b | 4 <= b < 8 ensures !Writes(HALF, PAIR, b) {
      SecondUnwritten(b);
    }
    hide WellFormed, Convertible, Fails, Writes, HeldIrrelevant;
    HarmlessIff(Conversion(atoms, HALF, PAIR, false));
    assert !Writes(HALF, PAIR, 4);
  }
}
