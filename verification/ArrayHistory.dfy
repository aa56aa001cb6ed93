/** Whole histories of dataset writes: after any sequence of them, on any datasets of any files,
    every byte is what one flat array per dataset would hold. */
module ArrayHistory {
  import opened Codec
  import opened Grid
  import opened Dataspace
  import opened FlatArray

  /** A successful write, with the file and memory spaces it came down to. */
  datatype WriteCall = WriteCall(ds: Dset, file: Space, mem: Space, buf: seq<byte>) {
    ghost predicate Valid() {
      && ds.Valid() && file.Valid() && mem.Valid() && |file.pts| == |mem.pts|
      && file.dims == ds.dims && BufferFits(mem, ds.typeSize, |buf|)
    }

    /** What DatasetWrite guarantees about the store. */
    ghost predicate Done(before: Objects, now: Objects)
      requires Valid()
    {
      Written(before, now, ds, file, mem, buf) && OthersKept(before, now, ds)
    }
  }

  /** The stores before, between and after a sequence of writes. */
  ghost predicate History(calls: seq<WriteCall>, stores: seq<Objects>) {
    && |stores| == |calls| + 1
    && forall i :: 0 <= i < |calls| ==> calls[i].Valid() && calls[i].Done(stores[i], stores[i + 1])
  }

  predicate SameDataset(a: Dset, b: Dset) {
    a.file == b.file && a.oid == b.oid
  }

  /** Every handle on the dataset gives it the same extent, layout and element size. */
  ghost predicate OneDescription(calls: seq<WriteCall>, ds: Dset) {
    forall i :: 0 <= i < |calls| && SameDataset(calls[i].ds, ds) ==> calls[i].ds.(writable := ds.writable) == ds
  }

  /** The flat array: byte b of point p is that of the last write to the dataset that selected p,
      at the memory element with p's position in the selection; without one, the initial byte. */
  ghost function Latest(calls: seq<WriteCall>, initial: Objects, ds: Dset, p: Coord, b: nat): byte
    requires ds.Valid() && InExtent(p, ds.dims) && b < ds.typeSize
    requires OneDescription(calls, ds) && forall i :: 0 <= i < |calls| ==> calls[i].Valid()
  {
    if calls == [] then DatasetByte(initial, ds, p, b)
    else
      var n := |calls| - 1;
      var c := calls[n];
      assert c.Valid() && forall i :: 0 <= i < n ==> calls[..n][i] == calls[i];
      if SameDataset(c.ds, ds) && p in c.file.pts then
        assert calls[n].ds.(writable := ds.writable) == ds;
        MemValue(c.mem, ds.typeSize, c.buf, IndexOf(c.file.pts, p), b)
      else Latest(calls[..n], initial, ds, p, b)
  }

  lemma HandleIrrelevant(objs: Objects, a: Dset, b: Dset, p: Coord, i: nat)
    requires a.Valid() && b.Valid() && a.(writable := b.writable) == b && InExtent(p, a.dims)
    ensures DatasetByte(objs, a, p, i) == DatasetByte(objs, b, p, i)
  {
    assert GridOf(a) == GridOf(b);
    assert a.file == b.file && a.oid == b.oid && a.typeSize == b.typeSize;
    assert KeyAt(a, ChunkOf(p, GridOf(a))) == KeyAt(b, ChunkOf(p, GridOf(b))) by { CornerLocOk(a, p); }
    assert Place(a, p, i) == Place(b, p, i);
  }

  /** One more write, seen from any point of any dataset. */
  lemma LastCall(c: WriteCall, before: Objects, now: Objects, ds: Dset, p: Coord, b: nat)
    requires c.Valid() && c.Done(before, now) && ds.Valid() && InExtent(p, ds.dims) && b < ds.typeSize
    requires SameDataset(c.ds, ds) ==> c.ds.(writable := ds.writable) == ds
    ensures DatasetByte(now, ds, p, b) ==
      if SameDataset(c.ds, ds) && p in c.file.pts then MemValue(c.mem, ds.typeSize, c.buf, IndexOf(c.file.pts, p), b)
      else DatasetByte(before, ds, p, b)
  {
    hide DatasetByte, OthersKept, MemValue;
    if SameDataset(c.ds, ds) {
      HandleIrrelevant(before, c.ds, ds, p, b);
      HandleIrrelevant(now, c.ds, ds, p, b);
      if p in c.file.pts {
        assert c.file.pts[IndexOf(c.file.pts, p)] == p;
      }
    } else {
      OtherDatasetKept(before, now, c.ds, ds, p, b);
    }
  }

  /** The last write wins: after any history every byte of every dataset is the flat array's. */
  lemma {:induction false} LastWriteWins(calls: seq<WriteCall>, stores: seq<Objects>, ds: Dset, p: Coord, b: nat)
    requires History(calls, stores) && OneDescription(calls, ds)
    requires ds.Valid() && InExtent(p, ds.dims) && b < ds.typeSize
    ensures DatasetByte(stores[|calls|], ds, p, b) == Latest(calls, stores[0], ds, p, b)
  {
    if calls != [] {
      var n := |calls| - 1;
      LastCall(calls[n], stores[n], stores[n + 1], ds, p, b);
      Shorter(calls, stores, ds);
      LastWriteWins(calls[..n], stores[..n + 1], ds, p, b);
    }
  }

  lemma Shorter(calls: seq<WriteCall>, stores: seq<Objects>, ds: Dset)
    requires History(calls, stores) && OneDescription(calls, ds) && calls != []
    ensures History(calls[..|calls| - 1], stores[..|calls|]) && OneDescription(calls[..|calls| - 1], ds)
  {
    var init := calls[..|calls| - 1];
    assert forall i :: 0 <= i < |init| ==> init[i] == calls[i];
    assert forall i :: 0 <= i <= |init| ==> stores[..|calls|][i] == stores[i];
  }

  /** A read after any history returns, for every selected point, the bytes of the flat array. */
  lemma ReadSeesLatest(calls: seq<WriteCall>, stores: seq<Objects>, ds: Dset, file: Space, mem: Space,
                       was: seq<byte>, read: seq<byte>, k: nat, b: nat)
    requires History(calls, stores) && OneDescription(calls, ds)
    requires ds.Valid() && file.Valid() && mem.Valid() && |file.pts| == |mem.pts| && file.dims == ds.dims
    requires BufferFits(mem, ds.typeSize, |was|)
    requires ReadBack(stores[|calls|], ds, file, mem, was, read) && k < |file.pts| && b < ds.typeSize
    ensures |read| == |was|
    ensures MemValue(mem, ds.typeSize, read, k, b) == Latest(calls, stores[0], ds, file.pts[k], b)
  {
    LastWriteWins(calls, stores, ds, file.pts[k], b);
  }
}
