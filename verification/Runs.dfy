/** Run-length lists of bytes, and what planning an I/O operation from two of them means. */
module Runs {

  /** A stretch of `len` bytes starting at byte `off`. */
  datatype Run = Run(off: nat, len: nat)

  /** One piece of an I/O operation: `len` bytes between memory byte `mem` and file byte `file`. */
  datatype Op = Op(mem: nat, file: nat, len: nat)

  ghost predicate Positive(runs: seq<Run>) {
    forall i :: 0 <= i < |runs| ==> runs[i].len > 0
  }

  function Total(runs: seq<Run>): nat {
    if runs == [] then 0 else runs[0].len + Total(runs[1..])
  }

  function Range(off: nat, len: nat): seq<nat> {
    seq(len, i requires 0 <= i => off + i)
  }

  /** The byte positions of a run list, in order. */
  function Flatten(runs: seq<Run>): (bytes: seq<nat>)
    ensures |bytes| == Total(runs)
  {
    if runs == [] then [] else Range(runs[0].off, runs[0].len) + Flatten(runs[1..])
  }

  function Pairs(op: Op): seq<(nat, nat)> {
    seq(op.len, i requires 0 <= i => (op.mem + i, op.file + i))
  }

  /** The (memory byte, file byte) pairs that a list of operations transfers, in order. */
  function OpPairs(ops: seq<Op>): seq<(nat, nat)> {
    if ops == [] then [] else Pairs(ops[0]) + OpPairs(ops[1..])
  }

  /** The run list that is left once its first n bytes, all inside the first run, are used up. */
  function Trim(runs: seq<Run>, n: nat): (rest: seq<Run>)
    requires runs != [] && n <= runs[0].len
    ensures Total(rest) == Total(runs) - n
  {
    if runs[0].len == n then runs[1..]
    else
      var rest := [Run(runs[0].off + n, runs[0].len - n)] + runs[1..];
      assert rest[1..] == runs[1..];
      rest
  }

  function Min(a: nat, b: nat): nat { if a <= b then a else b }

  /** Two-pointer merge of a memory and a file run list. */
  function Merge(ms: seq<Run>, fs: seq<Run>): seq<Op>
    decreases |ms| + |fs|
  {
    if ms == [] || fs == [] then []
    else
      var n := Min(ms[0].len, fs[0].len);
      [Op(ms[0].off, fs[0].off, n)] + Merge(Trim(ms, n), Trim(fs, n))
  }

  lemma PositiveTotal(runs: seq<Run>)
    requires Positive(runs)
    ensures Total(runs) == 0 <==> runs == []
  {
  }

  lemma TrimPositive(runs: seq<Run>, n: nat)
    requires runs != [] && n <= runs[0].len && Positive(runs)
    ensures Positive(Trim(runs, n))
  {
  }

  lemma {:induction false} FlattenTrim(runs: seq<Run>, n: nat)
    requires runs != [] && n <= runs[0].len
    ensures Flatten(runs) == Range(runs[0].off, n) + Flatten(Trim(runs, n))
  {
    if n < runs[0].len {
      var rest := Trim(runs, n);
      var head, tail := Range(runs[0].off, n), Range(rest[0].off, rest[0].len);
      assert rest[1..] == runs[1..];
      assert Range(runs[0].off, runs[0].len) == head + tail;
      assert head + tail + Flatten(runs[1..]) == head + (tail + Flatten(runs[1..]));
    }
  }

  /** The merge pairs the k-th byte of the memory list with the k-th byte of the file list,
      for every k, once each and in order. */
  lemma {:induction false} MergePairsBytes(ms: seq<Run>, fs: seq<Run>)
    requires Positive(ms) && Positive(fs) && Total(ms) == Total(fs)
    ensures |OpPairs(Merge(ms, fs))| == Total(ms)
    ensures forall k :: 0 <= k < Total(ms) ==>
      OpPairs(Merge(ms, fs))[k] == (Flatten(ms)[k], Flatten(fs)[k])
    decreases |ms| + |fs|
  {
    PositiveTotal(ms);
    PositiveTotal(fs);
    if ms != [] {
      var n := Min(ms[0].len, fs[0].len);
      var ms', fs' := Trim(ms, n), Trim(fs, n);
      FlattenTrim(ms, n);
      FlattenTrim(fs, n);
      TrimPositive(ms, n);
      TrimPositive(fs, n);
      MergePairsBytes(ms', fs');
      var op := Op(ms[0].off, fs[0].off, n);
      MergeHead(ms, fs);
      JoinPairs(op, OpPairs(Merge(ms', fs')), Flatten(ms'), Flatten(fs'));
      hide *;
    }
  }

  lemma MergeHead(ms: seq<Run>, fs: seq<Run>)
    requires ms != [] && fs != []
    ensures var n := Min(ms[0].len, fs[0].len);
      OpPairs(Merge(ms, fs)) == Pairs(Op(ms[0].off, fs[0].off, n)) + OpPairs(Merge(Trim(ms, n), Trim(fs, n)))
  {
    var ops := Merge(ms, fs);
    var n := Min(ms[0].len, fs[0].len);
    assert ops[1..] == Merge(Trim(ms, n), Trim(fs, n));
    hide Merge, Trim, Pairs;
  }

  /** Byte pairs of one operation in front of byte pairs of the others. */
  lemma JoinPairs(op: Op, rest: seq<(nat, nat)>, m: seq<nat>, f: seq<nat>)
    requires |rest| == |m| == |f| && forall k :: 0 <= k < |m| ==> rest[k] == (m[k], f[k])
    ensures var pairs, ms, fs := Pairs(op) + rest, Range(op.mem, op.len) + m, Range(op.file, op.len) + f;
      |pairs| == |ms| == |fs| && forall k :: 0 <= k < |ms| ==> pairs[k] == (ms[k], fs[k])
  {
  }

  /** m memory runs and f file runs give at most m + f - 1 operations, all of positive length. */
  lemma {:induction false} MergeCount(ms: seq<Run>, fs: seq<Run>)
    requires Positive(ms) && Positive(fs) && Total(ms) == Total(fs)
    ensures ms != [] ==> 1 <= |Merge(ms, fs)| <= |ms| + |fs| - 1
    ensures forall i :: 0 <= i < |Merge(ms, fs)| ==> Merge(ms, fs)[i].len > 0
    decreases |ms| + |fs|
  {
    PositiveTotal(ms);
    PositiveTotal(fs);
    if ms != [] {
      var n := Min(ms[0].len, fs[0].len);
      TrimPositive(ms, n);
      TrimPositive(fs, n);
      MergeCount(Trim(ms, n), Trim(fs, n));
      PositiveTotal(Trim(ms, n));
      PositiveTotal(Trim(fs, n));
    }
  }

  /** Does some run of the list end after exactly e bytes? */
  predicate EndsAt(runs: seq<Run>, e: int) {
    runs != [] && (e == runs[0].len || EndsAt(runs[1..], e - runs[0].len))
  }

  predicate OpEndsAt(ops: seq<Op>, e: int) {
    ops != [] && (e == ops[0].len || OpEndsAt(ops[1..], e - ops[0].len))
  }

  lemma {:induction false} EndsAtTrim(runs: seq<Run>, n: nat, e: int)
    requires runs != [] && n <= runs[0].len
    ensures EndsAt(runs, e) <==> (n == runs[0].len && e == n) || EndsAt(Trim(runs, n), e - n)
  {
    if n < runs[0].len {
      assert Trim(runs, n)[1..] == runs[1..];
    }
  }

  /** Operations end exactly where some run of either side ends: the merge never cuts a stretch
      that both lists keep whole, and never carries one over a boundary. */
  lemma {:induction false} MergeBoundaries(ms: seq<Run>, fs: seq<Run>, e: int)
    requires Positive(ms) && Positive(fs) && Total(ms) == Total(fs)
    ensures OpEndsAt(Merge(ms, fs), e) <==> EndsAt(ms, e) || EndsAt(fs, e)
    decreases |ms| + |fs|
  {
    PositiveTotal(ms);
    PositiveTotal(fs);
    if ms != [] {
      var n := Min(ms[0].len, fs[0].len);
      TrimPositive(ms, n);
      TrimPositive(fs, n);
      MergeBoundaries(Trim(ms, n), Trim(fs, n), e - n);
      EndsAtTrim(ms, n, e);
      EndsAtTrim(fs, n, e);
      assert Merge(ms, fs)[1..] == Merge(Trim(ms, n), Trim(fs, n));
    }
  }

  // ----- the two fast forms -----

  /** Each run transferred in place: memory and file offsets are the same. */
  function MatchOps(runs: seq<Run>): seq<Op> {
    if runs == [] then [] else [Op(runs[0].off, runs[0].off, runs[0].len)] + MatchOps(runs[1..])
  }

  /** The file runs transferred to or from consecutive memory, starting at `mem`. */
  function ContigOps(mem: nat, runs: seq<Run>): seq<Op>
    decreases runs
  {
    if runs == [] then []
    else [Op(mem, runs[0].off, runs[0].len)] + ContigOps(mem + runs[0].len, runs[1..])
  }

  /** Merging a list with itself is the matching plan. */
  lemma {:induction false} MatchIsMerge(runs: seq<Run>)
    ensures MatchOps(runs) == Merge(runs, runs)
  {
    if runs != [] {
      MatchIsMerge(runs[1..]);
    }
  }

  /** Merging against a single memory run is the contiguous plan. */
  lemma {:induction false} ContigIsMerge(mem: nat, runs: seq<Run>)
    requires Positive(runs) && runs != []
    ensures ContigOps(mem, runs) == Merge([Run(mem, Total(runs))], runs)
    decreases runs
  {
    var n := runs[0].len;
    PositiveTotal(runs[1..]);
    if |runs| > 1 {
      ContigIsMerge(mem + n, runs[1..]);
      assert Trim([Run(mem, Total(runs))], n) == [Run(mem + n, Total(runs[1..]))];
    } else {
      assert runs[1..] == [];
    }
  }

  // ----- lists cut in two -----

  lemma {:induction false} TotalConcat(a: seq<Run>, b: seq<Run>)
    ensures Total(a + b) == Total(a) + Total(b)
  {
    if a == [] {
      assert a + b == b;
    } else {
      assert (a + b)[1..] == a[1..] + b;
      TotalConcat(a[1..], b);
    }
  }

  lemma {:induction false} FlattenConcat(a: seq<Run>, b: seq<Run>)
    ensures Flatten(a + b) == Flatten(a) + Flatten(b)
  {
    if a == [] {
      assert a + b == b;
    } else {
      assert (a + b)[1..] == a[1..] + b;
      FlattenConcat(a[1..], b);
    }
  }

  lemma {:induction false} MatchConcat(a: seq<Run>, b: seq<Run>)
    ensures MatchOps(a + b) == MatchOps(a) + MatchOps(b)
  {
    if a == [] {
      assert a + b == b;
    } else {
      assert (a + b)[1..] == a[1..] + b;
      MatchConcat(a[1..], b);
    }
  }

  lemma {:induction false} ContigConcat(mem: nat, a: seq<Run>, b: seq<Run>)
    ensures ContigOps(mem, a + b) == ContigOps(mem, a) + ContigOps(mem + Total(a), b)
    decreases a
  {
    if a == [] {
      assert a + b == b;
    } else {
      assert (a + b)[1..] == a[1..] + b;
      ContigConcat(mem + a[0].len, a[1..], b);
    }
  }
}
