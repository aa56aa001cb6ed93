/** The three planners that turn selections into lists of I/O operations. Each pulls its run
    lists from selection iterators in batches of at most SEQ_LIST_LEN and works on the batch
    arrays in place. */
module IoPlan {
  import opened Runs

  const SEQ_LIST_LEN := 128

  /** A selection as its iterator hands it out: runs of bytes in row-major order, each with
      the number of elements it holds. */
  datatype Selection = Selection(runs: seq<Run>, counts: seq<nat>) {
    ghost predicate Valid() {
      && |runs| == |counts|
      && Positive(runs)
      && forall i :: 0 <= i < |counts| ==> counts[i] > 0
    }

    function Drop(n: nat): Selection
      requires n <= |runs| && n <= |counts|
    {
      Selection(runs[n..], counts[n..])
    }
  }

  function Sum(counts: seq<nat>): nat {
    if counts == [] then 0 else counts[0] + Sum(counts[1..])
  }

  lemma {:induction false} SumConcat(a: seq<nat>, b: seq<nat>)
    ensures Sum(a + b) == Sum(a) + Sum(b)
  {
    if a == [] {
      assert a + b == b;
    } else {
      assert (a + b)[1..] == a[1..] + b;
      SumConcat(a[1..], b);
    }
  }

  /** The runs stored at positions lo..hi of an offset array and a length array. */
  function Zip(off: seq<nat>, len: seq<nat>, lo: nat, hi: nat): (runs: seq<Run>)
    requires lo <= hi <= |off| && hi <= |len|
    ensures |runs| == hi - lo
  {
    seq(hi - lo, i requires 0 <= i < hi - lo => Run(off[lo + i], len[lo + i]))
  }

  /** The part of a batch not used up: its current run from `used` bytes on, then the others. */
  ghost function Pending(off: seq<nat>, len: seq<nat>, i: nat, n: nat, used: nat): seq<Run>
    requires i <= n <= |off| && n <= |len|
  {
    if i == n then [] else [Run(off[i] + used, len[i])] + Zip(off, len, i + 1, n)
  }

  lemma PendingIsZip(off: seq<nat>, len: seq<nat>, i: nat, n: nat)
    requires i <= n <= |off| && n <= |len|
    ensures Pending(off, len, i, n, 0) == Zip(off, len, i, n)
  {
  }

  lemma Associate<T>(a: seq<T>, b: seq<T>, c: seq<T>)
    ensures a + (b + c) == (a + b) + c
  {
  }

  lemma PendingCons(off: seq<nat>, len: seq<nat>, i: nat, n: nat, used: nat)
    requires i < n <= |off| && n <= |len|
    ensures Pending(off, len, i, n, used) == [Run(off[i] + used, len[i])] + Zip(off, len, i + 1, n)
  {
  }

  lemma ZipKept(off: seq<nat>, len: seq<nat>, i: nat, v: nat, n: nat)
    requires i < n <= |off| && n <= |len|
    ensures Zip(off, len[i := v], i + 1, n) == Zip(off, len, i + 1, n)
  {
  }

  lemma TrimCons(x: Run, runs: seq<Run>, k: nat)
    requires k <= x.len
    ensures Trim([x] + runs, k) == if k == x.len then runs else [Run(x.off + k, x.len - k)] + runs
  {
    assert ([x] + runs)[1..] == runs;
  }

  lemma TrimPending(off: seq<nat>, len: seq<nat>, i: nat, n: nat, used: nat, k: nat, later: seq<Run>)
    requires i < n <= |off| && n <= |len| && k <= len[i]
    ensures Trim(Pending(off, len, i, n, used) + later, k)
         == if k == len[i] then Pending(off, len, i + 1, n, 0) + later
            else Pending(off, len[i := len[i] - k], i, n, used + k) + later
  {
    hide Pending, Zip, Trim;
    var x, z := Run(off[i] + used, len[i]), Zip(off, len, i + 1, n);
    PendingCons(off, len, i, n, used);
    Associate([x], z, later);
    TrimCons(x, z + later, k);
    if k == len[i] {
      PendingIsZip(off, len, i + 1, n);
    } else {
      var y := Run(x.off + k, x.len - k);
      PendingCons(off, len[i := len[i] - k], i, n, used + k);
      ZipKept(off, len, i, len[i] - k, n);
      Associate([y], z, later);
    }
  }

  /** A selection iterator with its batch buffers: the part of the selection not handed out
      yet, the last batch, the current run in it and how much of that run is used. */
  class SelIter {
    const off: array<nat>
    const len: array<nat>
    var rest: Selection
    var nseq: nat
    var i: nat
    var ei: nat

    ghost predicate Valid()
      reads this, off, len
    {
      && off.Length == SEQ_LIST_LEN && len.Length == SEQ_LIST_LEN && off != len
      && i <= nseq <= SEQ_LIST_LEN
      && (i == nseq ==> ei == 0)
      && rest.Valid()
    }

    /** The runs still to be transferred. */
    ghost function Left(): seq<Run>
      requires Valid()
      reads this, off, len
    {
      Pending(off[..], len[..], i, nseq, ei) + rest.runs
    }

    constructor (sel: Selection)
      requires sel.Valid()
      ensures Valid() && fresh(off) && fresh(len)
      ensures rest == sel && nseq == 0 && Left() == sel.runs
    {
      off, len := new nat[SEQ_LIST_LEN], new nat[SEQ_LIST_LEN];
      rest := sel;
      nseq, i, ei := 0, 0, 0;
    }

    /** Hands out the next runs, as many as the iterator likes between one and SEQ_LIST_LEN,
        and returns the number of elements they hold. */
    method GetSeqList() returns (nelem: nat)
      requires Valid()
      modifies this, off, len
      ensures Valid() && i == 0 && ei == 0 && (old(rest).runs != [] ==> nseq > 0)
      ensures nseq <= |old(rest).runs| && rest == old(rest).Drop(nseq)
      ensures Zip(off[..], len[..], 0, nseq) == old(rest).runs[..nseq]
      ensures nelem == Sum(old(rest).counts[..nseq])
    {
      var n := 0;
      if rest.runs != [] {
        assert 1 <= 1 <= SEQ_LIST_LEN && 1 <= |rest.runs|;
        n :| 1 <= n <= SEQ_LIST_LEN && n <= |rest.runs|;
      }
      nelem := CopyBatch(rest, n, off, len);
      nseq, i, ei, rest := n, 0, 0, rest.Drop(n);
    }

    static method CopyBatch(sel: Selection, n: nat, off: array<nat>, len: array<nat>) returns (nelem: nat)
      requires sel.Valid() && n <= |sel.runs| && n <= off.Length && n <= len.Length && off != len
      modifies off, len
      ensures Zip(off[..], len[..], 0, n) == sel.runs[..n]
      ensures nelem == Sum(sel.counts[..n])
    {
      var k := 0;
      nelem := 0;
      while k < n
        invariant k <= n
        invariant forall j :: 0 <= j < k ==> off[j] == sel.runs[j].off && len[j] == sel.runs[j].len
        invariant nelem == Sum(sel.counts[..k])
      {
        off[k], len[k] := sel.runs[k].off, sel.runs[k].len;
        SumConcat(sel.counts[..k], [sel.counts[k]]);
        assert sel.counts[..k + 1] == sel.counts[..k] + [sel.counts[k]];
        nelem := nelem + sel.counts[k];
        k := k + 1;
      }
    }

    /** Fetches the next batch if the current one is used up, and returns what is left of the
        current run. */
    method Refill() returns (cur: Run)
      requires Valid() && Left() != []
      modifies this, off, len
      ensures Valid() && i < nseq && Left() == old(Left()) && cur == Left()[0] && cur.len == len[i]
    {
      if i == nseq {
        var nelem := GetSeqList();
        PendingIsZip(off[..], len[..], 0, nseq);
      }
      cur := Run(off[i] + ei, len[i]);
    }

    /** Takes n bytes off the current run, moving to the next run when it is done. */
    method Use(n: nat)
      requires Valid() && i < nseq && n <= len[i]
      modifies this, len
      ensures Valid() && Left() == Trim(old(Left()), n)
    {
      ghost var offs, lens, at, used := off[..], len[..], i, ei;
      TrimPending(offs, lens, i, nseq, ei, n, rest.runs);
      hide Pending, Trim, Zip, Positive, Selection.Valid;
      if n == len[i] {
        i, ei := i + 1, 0;
        assert len[..] == lens;
      } else {
        len[i] := len[i] - n;
        ei := ei + n;
        assert len[..] == lens[at := lens[at] - n];
      }
      assert off[..] == offs;
    }
  }

  /** The two iterators share no buffer. */
  ghost predicate Apart(m: SelIter, f: SelIter) {
    m != f && m.off != f.off && m.off != f.len && m.len != f.off && m.len != f.len
  }

  /** One round of the merge: the longest stretch that both current runs still hold. */
  method MergeOne(m: SelIter, f: SelIter) returns (op: Op)
    requires m.Valid() && f.Valid() && Apart(m, f)
    requires m.Left() != [] && f.Left() != []
    modifies m, m.off, m.len, f, f.off, f.len
    ensures m.Valid() && f.Valid()
    ensures op == FirstOp(old(m.Left()), old(f.Left()))
    ensures m.Left() == Trim(old(m.Left()), op.len)
    ensures f.Left() == Trim(old(f.Left()), op.len)
  {
    var mem := m.Refill();
    var file := f.Refill();
    op := Op(mem.off, file.off, if mem.len <= file.len then mem.len else file.len);
    m.Use(op.len);
    f.Use(op.len);
  }

  function FirstOp(ms: seq<Run>, fs: seq<Run>): (op: Op)
    requires ms != [] && fs != []
    ensures op.len <= ms[0].len && op.len <= fs[0].len
  {
    Op(ms[0].off, fs[0].off, Min(ms[0].len, fs[0].len))
  }

  /** Plans the transfer between two selections of the same size, by a two-pointer merge of
      their run lists. The outcome does not depend on how the iterators cut their batches. */
  method BuildIoOpMerge(mem: Selection, file: Selection, typeSize: nat, totNelem: nat)
    returns (ops: seq<Op>)
    requires mem.Valid() && file.Valid()
    requires Total(mem.runs) == Total(file.runs) == totNelem * typeSize && totNelem > 0
    ensures ops == Merge(mem.runs, file.runs)
  {
    var m := new SelIter(mem);
    var f := new SelIter(file);
    var totLen: int := totNelem * typeSize;
    ops := [];
    while totLen > 0
      invariant m.Valid() && f.Valid() && Apart(m, f)
      invariant ToPlan(m.Left(), f.Left(), totLen)
      invariant ops + Merge(m.Left(), f.Left()) == Merge(mem.runs, file.runs)
    {
      PlanStep(ops, m.Left(), f.Left(), totLen);
      var op := MergeOne(m, f);
      ops := ops + [op];
      totLen := totLen - op.len;
    }
    PositiveTotal(m.Left());
  }

  /** Both sides have totLen bytes left to transfer. */
  ghost predicate ToPlan(ms: seq<Run>, fs: seq<Run>, totLen: int) {
    Positive(ms) && Positive(fs) && Total(ms) == totLen && Total(fs) == totLen
  }

  lemma PlanStep(ops: seq<Op>, ms: seq<Run>, fs: seq<Run>, totLen: int)
    requires ToPlan(ms, fs, totLen) && totLen > 0
    ensures ms != [] && fs != []
    ensures var op := FirstOp(ms, fs);
      && op.len > 0
      && ToPlan(Trim(ms, op.len), Trim(fs, op.len), totLen - op.len)
      && ops + Merge(ms, fs) == (ops + [op]) + Merge(Trim(ms, op.len), Trim(fs, op.len))
  {
    PositiveTotal(ms);
    PositiveTotal(fs);
    var op := FirstOp(ms, fs);
    TrimPositive(ms, op.len);
    TrimPositive(fs, op.len);
    var later := Merge(Trim(ms, op.len), Trim(fs, op.len));
    assert Merge(ms, fs) == [op] + later;
    Associate(ops, [op], later);
  }

  /** Taking n runs off a selection in a batch. */
  lemma CutBatch(sel: Selection, n: nat)
    requires sel.Valid() && n <= |sel.runs|
    ensures sel.runs == sel.runs[..n] + sel.runs[n..]
    ensures Sum(sel.counts) == Sum(sel.counts[..n]) + Sum(sel.counts[n..])
    ensures n > 0 ==> Sum(sel.counts[..n]) > 0
  {
    assert sel.counts == sel.counts[..n] + sel.counts[n..];
    SumConcat(sel.counts[..n], sel.counts[n..]);
  }

  /** Plans a transfer whose memory and file run lists are the same. */
  method BuildIoOpMatch(file: Selection, totNelem: nat) returns (ops: seq<Op>)
    requires file.Valid() && Sum(file.counts) == totNelem && totNelem > 0
    ensures ops == MatchOps(file.runs)
  {
    var iter := new SelIter(file);
    var left: int := totNelem;
    ops := [];
    assert ops + MatchOps(file.runs) == MatchOps(file.runs);
    hide Sum, MatchOps, Positive, Selection.Valid;
    while left > 0
      invariant iter.Valid()
      invariant left == Sum(iter.rest.counts)
      invariant ops + MatchOps(iter.rest.runs) == MatchOps(file.runs)
    {
      var nelem;
      ops, nelem := MatchBatch(iter, ops);
      left := left - nelem;
    }
    NothingLeft(iter.rest);
  }

  lemma NothingLeft(sel: Selection)
    requires sel.Valid() && Sum(sel.counts) == 0
    ensures sel.runs == [] && MatchOps(sel.runs) == []
  {
  }

  /** Fetches one batch and plans it. */
  method MatchBatch(iter: SelIter, before: seq<Op>) returns (ops: seq<Op>, nelem: nat)
    requires iter.Valid()
    modifies iter, iter.off, iter.len
    ensures iter.Valid() && Sum(old(iter.rest).counts) == nelem + Sum(iter.rest.counts)
    ensures Sum(old(iter.rest).counts) > 0 ==> nelem > 0
    ensures ops + MatchOps(iter.rest.runs) == before + MatchOps(old(iter.rest).runs)
  {
    ghost var rest := iter.rest;
    nelem := iter.GetSeqList();
    CutMatch(before, rest, iter.nseq);
    ops := AppendMatch(before, iter.off, iter.len, iter.nseq, rest.runs[..iter.nseq]);
  }

  lemma CutMatch(ops: seq<Op>, sel: Selection, n: nat)
    requires sel.Valid() && n <= |sel.runs|
    ensures Sum(sel.counts) == Sum(sel.counts[..n]) + Sum(sel.counts[n..])
    ensures n > 0 ==> Sum(sel.counts[..n]) > 0
    ensures ops + MatchOps(sel.runs) == (ops + MatchOps(sel.runs[..n])) + MatchOps(sel.runs[n..])
  {
    CutBatch(sel, n);
    var a, b := sel.runs[..n], sel.runs[n..];
    MatchConcat(a, b);
    Associate(ops, MatchOps(a), MatchOps(b));
  }

  method AppendMatch(before: seq<Op>, off: array<nat>, len: array<nat>, nseq: nat, ghost batch: seq<Run>)
    returns (ops: seq<Op>)
    requires nseq <= off.Length && nseq <= len.Length && Zip(off[..], len[..], 0, nseq) == batch
    ensures ops == before + MatchOps(batch)
  {
    ops := before;
    var szi := 0;
    while szi < nseq
      invariant szi <= nseq
      invariant ops == before + MatchOps(batch[..szi])
    {
      MatchConcat(batch[..szi], [batch[szi]]);
      assert batch[..szi + 1] == batch[..szi] + [batch[szi]];
      ops := ops + [Op(off[szi], off[szi], len[szi])];
      szi := szi + 1;
    }
    assert batch[..szi] == batch;
  }

  /** Plans a transfer between file runs and a packed buffer. */
  method BuildIoOpContig(file: Selection, totNelem: nat) returns (ops: seq<Op>)
    requires file.Valid() && Sum(file.counts) == totNelem && totNelem > 0
    ensures ops == ContigOps(0, file.runs)
  {
    var iter := new SelIter(file);
    var left: int := totNelem;
    var memOff := 0;
    ops := [];
    while left > 0
      invariant iter.Valid()
      invariant left == Sum(iter.rest.counts)
      invariant ops + ContigOps(memOff, iter.rest.runs) == ContigOps(0, file.runs)
    {
      var nelem;
      ops, memOff, nelem := ContigBatch(iter, ops, memOff);
      left := left - nelem;
    }
  }

  /** Fetches one batch and plans it. */
  method ContigBatch(iter: SelIter, before: seq<Op>, base: nat) returns (ops: seq<Op>, memOff: nat, nelem: nat)
    requires iter.Valid()
    modifies iter, iter.off, iter.len
    ensures iter.Valid() && Sum(old(iter.rest).counts) == nelem + Sum(iter.rest.counts)
    ensures Sum(old(iter.rest).counts) > 0 ==> nelem > 0
    ensures ops + ContigOps(memOff, iter.rest.runs) == before + ContigOps(base, old(iter.rest).runs)
  {
    ghost var rest := iter.rest;
    nelem := iter.GetSeqList();
    CutContig(before, base, rest, iter.nseq);
    ops, memOff := AppendContig(before, iter.off, iter.len, iter.nseq, base, rest.runs[..iter.nseq]);
  }

  lemma CutContig(ops: seq<Op>, mem: nat, sel: Selection, n: nat)
    requires sel.Valid() && n <= |sel.runs|
    ensures Sum(sel.counts) == Sum(sel.counts[..n]) + Sum(sel.counts[n..])
    ensures n > 0 ==> Sum(sel.counts[..n]) > 0
    ensures ops + ContigOps(mem, sel.runs)
         == (ops + ContigOps(mem, sel.runs[..n])) + ContigOps(mem + Total(sel.runs[..n]), sel.runs[n..])
  {
    CutBatch(sel, n);
    var a, b := sel.runs[..n], sel.runs[n..];
    ContigConcat(mem, a, b);
    Associate(ops, ContigOps(mem, a), ContigOps(mem + Total(a), b));
  }

  method AppendContig(before: seq<Op>, off: array<nat>, len: array<nat>, nseq: nat, base: nat, ghost batch: seq<Run>)
    returns (ops: seq<Op>, memOff: nat)
    requires nseq <= off.Length && nseq <= len.Length && Zip(off[..], len[..], 0, nseq) == batch
    ensures ops == before + ContigOps(base, batch)
    ensures memOff == base + Total(batch)
  {
    ops, memOff := before, base;
    var szi := 0;
    while szi < nseq
      invariant szi <= nseq
      invariant memOff == base + Total(batch[..szi])
      invariant ops == before + ContigOps(base, batch[..szi])
    {
      ContigConcat(base, batch[..szi], [batch[szi]]);
      TotalConcat(batch[..szi], [batch[szi]]);
      assert batch[..szi + 1] == batch[..szi] + [batch[szi]];
      ops := ops + [Op(memOff, off[szi], len[szi])];
      memOff := memOff + len[szi];
      szi := szi + 1;
    }
    assert batch[..szi] == batch;
  }
}
